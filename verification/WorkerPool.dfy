/** The supervisor, its children and the two shared semaphores, as a state machine over
    atomic steps. Any child may die at any step; forks may fail; the operating system may
    reuse the pid of a child once it has been reaped. */
module WorkerPool {

  datatype Sem = Conc | Shed

  /** Where a worker is in its request loop. A request other than `/r` leaves it `Accepting`. */
  datatype Stage = Accepting | GotConc | Serving | Finishing

  predicate Holds(stage: Stage, sem: Sem) {
    match sem
    case Conc => !stage.Accepting?
    case Shed => stage.Serving?
  }

  /** A child that has not been reaped; a dead one keeps its pid and its tokens. */
  datatype Child = Reader(alive: bool) | Worker(alive: bool, stage: Stage)

  /** Where the supervisor is. The restart phases carry the stage in which the reaped worker
      died, which the supervisor itself does not know. */
  datatype Phase =
    | StartReader
    | StartWorker(slot: nat)
    | Waiting
    | ReaderDown
    | Restoring(sem: Sem, slot: nat, died: Stage)   // before sem_getvalue
    | Posting(sem: Sem, slot: nat, died: Stage)     // sem_post decided, not done
    | Respawning(slot: nat)
    | Stopped                                       // draining children, no restarts

  datatype State = State(workers: nat, conc: nat, shed: nat, readerPid: int, pids: seq<int>,
                         children: map<int, Child>, phase: Phase, rejected: bool)

  datatype Step =
    | Fork(pid: int) | ForkFails | Reap(pid: int, shutdown: bool) | NoChildren | Shutdown
    | Check | Post | DrainReap(pid: int)
    | TakeConc(pid: int) | TakeShed(pid: int) | ReleaseShed(pid: int) | ReleaseConc(pid: int) | Dies(pid: int)

  function Value(s: State, sem: Sem): nat {
    match sem case Conc => s.conc case Shed => s.shed
  }

  predicate LiveWorker(s: State, pid: int, stage: Stage) {
    pid in s.children && s.children[pid] == Worker(true, stage)
  }

  predicate Forking(phase: Phase) {
    phase.StartReader? || phase.StartWorker? || phase.ReaderDown? || phase.Respawning?
  }

  predicate Enabled(s: State, step: Step) {
    match step
    case Fork(pid) => Forking(s.phase) && pid > 0 && pid !in s.children
    case ForkFails => Forking(s.phase)
    case Reap(pid, _) => s.phase.Waiting? && pid in s.children && !s.children[pid].alive
    case NoChildren => s.phase.Waiting? && s.children == map[]
    case Shutdown => s.phase.Waiting?
    case Check => s.phase.Restoring?
    case Post => s.phase.Posting?
    case DrainReap(pid) => s.phase.Stopped? && pid in s.children && !s.children[pid].alive
    case TakeConc(pid) => LiveWorker(s, pid, Accepting)
    case TakeShed(pid) => LiveWorker(s, pid, GotConc)
    case ReleaseShed(pid) => LiveWorker(s, pid, Serving)
    case ReleaseConc(pid) => LiveWorker(s, pid, Finishing)
    case Dies(pid) => pid in s.children && s.children[pid].alive
  }

  /** The first slot with a given pid; the number of slots when there is none. */
  function SlotOf(pids: seq<int>, pid: int): (i: nat)
    ensures i <= |pids|
    ensures i < |pids| ==> pids[i] == pid
    ensures forall j | 0 <= j < i :: pids[j] != pid
  {
    if pids == [] || pids[0] == pid then 0 else 1 + SlotOf(pids[1..], pid)
  }

  function NextStart(s: State, slot: nat): Phase {
    if slot < s.workers then StartWorker(slot) else Waiting
  }

  function AfterFork(s: State, pid: int, ok: bool): State {
    match s.phase
    case StartReader =>
      if ok then s.(readerPid := pid, children := s.children[pid := Reader(true)], phase := NextStart(s, 0))
      else s.(phase := Stopped)
    case StartWorker(i) =>
      if ok && i < |s.pids| then
        s.(pids := s.pids[i := pid], children := s.children[pid := Worker(true, Accepting)],
           phase := NextStart(s, i + 1))
      else s.(phase := Stopped)
    case ReaderDown =>
      if ok then s.(readerPid := pid, children := s.children[pid := Reader(true)], phase := Waiting)
      else s.(readerPid := -1, phase := Waiting)
    case Respawning(i) =>
      if i >= |s.pids| then s.(phase := Waiting)
      else if ok then
        s.(pids := s.pids[i := pid], children := s.children[pid := Worker(true, Accepting)], phase := Waiting)
      else s.(pids := s.pids[i := -1], phase := Waiting)
    case _ => s
  }

  function AfterReap(s: State, pid: int, shutdown: bool): State
    requires pid in s.children
  {
    var rest := s.children - {pid};
    if shutdown then s.(children := rest, phase := Stopped)
    else if pid == s.readerPid then s.(children := rest, phase := ReaderDown)
    else
      var i := SlotOf(s.pids, pid);
      if i < |s.pids| then
        s.(children := rest,
           phase := Restoring(Conc, i, if s.children[pid].Worker? then s.children[pid].stage else Accepting))
      else s.(children := rest)
  }

  function AfterCheck(s: State): State
    requires s.phase.Restoring?
  {
    var Restoring(sem, i, died) := s.phase;
    if Value(s, sem) < s.workers then s.(phase := Posting(sem, i, died))
    else s.(phase := if sem == Conc then Restoring(Shed, i, died) else Respawning(i))
  }

  function AfterPost(s: State): State
    requires s.phase.Posting?
  {
    var Posting(sem, i, died) := s.phase;
    match sem
    case Conc => s.(conc := s.conc + 1, phase := Restoring(Shed, i, died))
    case Shed => s.(shed := s.shed + 1, phase := Respawning(i))
  }

  function MoveTo(s: State, pid: int, stage: Stage): State {
    s.(children := s.children[pid := Worker(true, stage)])
  }

  function After(s: State, step: Step): State
    requires Enabled(s, step)
  {
    match step
    case Fork(pid) => AfterFork(s, pid, true)
    case ForkFails => AfterFork(s, -1, false)
    case Reap(pid, shutdown) => AfterReap(s, pid, shutdown)
    case NoChildren => s.(phase := Stopped)
    case Shutdown => s.(phase := Stopped)
    case Check => AfterCheck(s)
    case Post => AfterPost(s)
    case DrainReap(pid) => s.(children := s.children - {pid})
    case TakeConc(pid) =>
      if s.conc > 0 then MoveTo(s, pid, GotConc).(conc := s.conc - 1) else s.(rejected := true)
    case TakeShed(pid) =>
      if s.shed > 0 then MoveTo(s, pid, Serving).(shed := s.shed - 1)
      else MoveTo(s, pid, Finishing).(rejected := true)
    case ReleaseShed(pid) => MoveTo(s, pid, Finishing).(shed := s.shed + 1)
    case ReleaseConc(pid) => MoveTo(s, pid, Accepting).(conc := s.conc + 1)
    case Dies(pid) => s.(children := s.children[pid := s.children[pid].(alive := false)])
  }

  function Init(n: nat): State {
    State(n, n, n, -1, seq(n, _ => -1), map[], StartReader, false)
  }

  predicate IsRun(s: State, steps: seq<Step>)
    decreases |steps|
  {
    steps == [] || (Enabled(s, steps[0]) && IsRun(After(s, steps[0]), steps[1..]))
  }

  function Run(s: State, steps: seq<Step>): State
    requires IsRun(s, steps)
    decreases |steps|
  {
    if steps == [] then s else Run(After(s, steps[0]), steps[1..])
  }

  // ---- Supervisor safety ----

  /** The slot a restart is about. */
  predicate Restarting(phase: Phase, i: nat) {
    (phase.Restoring? || phase.Posting? || phase.Respawning?) && phase.slot == i
  }

  /** The reader's pid is in the reader's variable, a worker's pid is in a slot. */
  ghost predicate Located(readerPid: int, pids: seq<int>, children: map<int, Child>) {
    forall pid | pid in children ::
      && pid > 0
      && if children[pid].Reader? then pid == readerPid else pid != readerPid && pid in pids
  }

  /** No child is in two slots, and no slot holds the reader. */
  ghost predicate Apart(pids: seq<int>, children: map<int, Child>) {
    && (forall i, j | 0 <= i < j < |pids| && pids[i] in children :: pids[i] != pids[j])
    && (forall i | 0 <= i < |pids| && pids[i] in children :: children[pids[i]].Worker?)
  }

  /** A pid that belongs to no child is only left in a variable about to be overwritten. */
  ghost predicate Settled(s: State) {
    && |s.pids| == s.workers
    && (s.phase.StartReader? ==> s.readerPid == -1 && forall i | 0 <= i < |s.pids| :: s.pids[i] == -1)
    && (s.phase.StartWorker? ==> s.phase.slot < |s.pids| && forall i | s.phase.slot <= i < |s.pids| :: s.pids[i] == -1)
    && (s.phase.ReaderDown? ==> s.readerPid !in s.children)
    && (forall i: nat | Restarting(s.phase, i) :: i < |s.pids| && s.pids[i] !in s.children)
    && (!s.phase.Stopped? && !s.phase.ReaderDown? ==> s.readerPid == -1 || s.readerPid in s.children)
    && (!s.phase.Stopped? ==>
          forall i: nat | i < |s.pids| :: s.pids[i] == -1 || s.pids[i] in s.children || Restarting(s.phase, i))
  }

  ghost predicate Supervised(s: State) {
    Located(s.readerPid, s.pids, s.children) && Apart(s.pids, s.children) && Settled(s)
  }

  lemma SlotTaken(s: State, i: nat, pid: int)
    requires Supervised(s) && i < |s.pids| && s.pids[i] !in s.children && !s.phase.Stopped?
    requires s.phase.StartWorker? || s.phase.Respawning?
    requires s.phase.slot == i && pid > 0 && pid !in s.children
    ensures var pids, children := s.pids[i := pid], s.children[pid := Worker(true, Accepting)];
            Located(s.readerPid, pids, children) && Apart(pids, children)
  {
    var pids, children := s.pids[i := pid], s.children[pid := Worker(true, Accepting)];
    forall q | q in children
      ensures q > 0 && if children[q].Reader? then q == s.readerPid else q != s.readerPid && q in pids
    {
      if q == pid {
        assert pids[i] == pid;
      } else if children[q].Worker? {
        var k :| 0 <= k < |s.pids| && s.pids[k] == q;
        assert pids[k] == q;
      }
    }
  }

  lemma ForkKeepsSettled(s: State, pid: int, ok: bool)
    requires Supervised(s) && Forking(s.phase)
    requires ok ==> pid > 0 && pid !in s.children
    ensures Settled(AfterFork(s, pid, ok))
  {
    hide Apart;
    assert s.phase.Respawning? ==> Restarting(s.phase, s.phase.slot);
  }

  lemma ForkKeepsPids(s: State, pid: int, ok: bool)
    requires Supervised(s) && Forking(s.phase)
    requires ok ==> pid > 0 && pid !in s.children
    ensures var s' := AfterFork(s, pid, ok);
            Located(s'.readerPid, s'.pids, s'.children) && Apart(s'.pids, s'.children)
  {
    assert s.phase.Respawning? ==> Restarting(s.phase, s.phase.slot);
    if s.phase.StartWorker? || s.phase.Respawning? {
      hide Located, Apart;
      if ok {
        SlotTaken(s, s.phase.slot, pid);
      } else if s.phase.Respawning? {
        SlotCleared(s, s.phase.slot);
      }
    } else if ok {
      ReaderTaken(s, pid);
    }
  }

  lemma ReaderTaken(s: State, pid: int)
    requires Supervised(s) && pid > 0 && pid !in s.children && (s.phase.StartReader? || s.phase.ReaderDown?)
    ensures var children := s.children[pid := Reader(true)];
            Located(pid, s.pids, children) && Apart(s.pids, children)
  {}

  lemma ForkKeepsSupervised(s: State, pid: int, ok: bool)
    requires Supervised(s) && Forking(s.phase)
    requires ok ==> pid > 0 && pid !in s.children
    ensures Supervised(AfterFork(s, pid, ok))
  {
    hide Located, Apart, Settled, AfterFork;
    ForkKeepsPids(s, pid, ok);
    ForkKeepsSettled(s, pid, ok);
  }

  lemma SlotCleared(s: State, i: nat)
    requires Supervised(s) && i < |s.pids| && s.pids[i] !in s.children
    ensures Located(s.readerPid, s.pids[i := -1], s.children) && Apart(s.pids[i := -1], s.children)
  {
    var pids := s.pids[i := -1];
    forall q | q in s.children && s.children[q].Worker? ensures q in pids {
      var k :| 0 <= k < |s.pids| && s.pids[k] == q;
      assert pids[k] == q;
    }
  }

  lemma ReapKeepsSupervised(s: State, pid: int, shutdown: bool)
    requires Supervised(s) && s.phase.Waiting? && pid in s.children
    ensures Supervised(AfterReap(s, pid, shutdown))
  {
    var i := SlotOf(s.pids, pid);
    if pid != s.readerPid {
      assert i < |s.pids|;
      forall j | 0 <= j < |s.pids| && s.pids[j] == pid ensures j == i {}
    } else {
      forall j | 0 <= j < |s.pids| ensures s.pids[j] != pid {}
    }
  }

  lemma SameChildrenKeepsSupervised(s: State, s': State)
    requires Supervised(s)
    requires s'.workers == s.workers && s'.readerPid == s.readerPid && s'.pids == s.pids
    requires s'.children.Keys == s.children.Keys
    requires forall pid | pid in s.children :: s'.children[pid].Reader? == s.children[pid].Reader?
    requires
      || s'.phase == s.phase
      || s'.phase.Stopped?
      || (&& !s.phase.Stopped? && !s.phase.ReaderDown? && !s'.phase.StartReader?
          && !s'.phase.StartWorker? && !s'.phase.ReaderDown?
          && forall i: nat :: Restarting(s.phase, i) <==> Restarting(s'.phase, i))
    ensures Supervised(s')
  {
    forall i | 0 <= i < |s.pids| && s.pids[i] in s.children ensures s'.children[s.pids[i]].Worker? {
      var pid := s.pids[i];
      assert s.children[pid].Worker? && pid in s'.children.Keys;
      assert s'.children[pid].Reader? == s.children[pid].Reader?;
    }
  }

  lemma StepKeepsSupervised(s: State, step: Step)
    requires Supervised(s) && Enabled(s, step)
    ensures Supervised(After(s, step))
  {
    hide Located, Apart, Settled;
    if step.Fork? {
      ForkKeepsSupervised(s, step.pid, true);
    } else if step.ForkFails? {
      ForkKeepsSupervised(s, -1, false);
    } else if step.Reap? {
      ReapKeepsSupervised(s, step.pid, step.shutdown);
    } else if step.DrainReap? {
      DrainKeepsSupervised(s, step.pid);
    } else {
      SameChildrenKeepsSupervised(s, After(s, step));
    }
  }

  lemma DrainKeepsSupervised(s: State, pid: int)
    requires Supervised(s) && s.phase.Stopped?
    ensures Supervised(s.(children := s.children - {pid}))
  {}

  // ---- Capacity ----

  function Bit(b: bool): nat {
    if b then 1 else 0
  }

  /** The token of `sem` that slot `i` accounts for: held by its child, dead or alive; owed
      or about to be posted by a restart; or given up once the pool shuts down. */
  function Claim(s: State, sem: Sem, i: nat): (c: nat)
    requires i < |s.pids|
    ensures c <= 1
  {
    if s.pids[i] in s.children then
      Bit(s.children[s.pids[i]].Worker? && Holds(s.children[s.pids[i]].stage, sem))
    else
      match s.phase
      case Restoring(at, slot, died) => Bit(slot == i && (at == Conc || sem == Shed) && Holds(died, sem))
      case Posting(at, slot, died) => Bit(slot == i && (at == sem || (at == Conc && Holds(died, sem))))
      case Stopped => 1
      case _ => 0
  }

  function Claims(s: State, sem: Sem): (c: seq<nat>)
    ensures |c| == |s.pids|
  {
    seq(|s.pids|, i requires 0 <= i < |s.pids| => Claim(s, sem, i))
  }

  function Sum(c: seq<nat>): nat {
    if c == [] then 0 else c[0] + Sum(c[1..])
  }

  lemma {:induction false} SumUpdate(c: seq<nat>, i: nat, x: nat)
    requires i < |c|
    ensures Sum(c[i := x]) == Sum(c) - c[i] + x
  {
    if i > 0 {
      assert c[i := x][1..] == c[1..][i - 1 := x];
      SumUpdate(c[1..], i - 1, x);
    } else {
      assert c[i := x][1..] == c[1..];
    }
  }

  lemma {:induction false} SumGrows(c: seq<nat>, d: seq<nat>)
    requires |c| == |d| && forall i | 0 <= i < |c| :: c[i] <= d[i]
    ensures Sum(c) <= Sum(d)
  {
    if c != [] {
      SumGrows(c[1..], d[1..]);
    }
  }

  /** Entries of at most one add up to at most the length, and to less if one of them is 0. */
  lemma {:induction false} SumAtMost(c: seq<nat>)
    requires forall i | 0 <= i < |c| :: c[i] <= 1
    ensures Sum(c) <= |c|
    ensures (exists i :: 0 <= i < |c| && c[i] == 0) ==> Sum(c) < |c|
  {
    if c != [] {
      SumAtMost(c[1..]);
      if i :| 0 <= i < |c| && c[i] == 0 && i > 0 {
        assert c[1..][i - 1] == 0;
      }
    }
  }

  /** Changing one slot changes the sum by the difference. */
  lemma OneSlot(c: seq<nat>, d: seq<nat>, i: nat)
    requires |c| == |d| && i < |c| && forall j | 0 <= j < |c| && j != i :: c[j] == d[j]
    ensures Sum(d) == Sum(c) - c[i] + d[i]
  {
    assert d == c[i := d[i]];
    SumUpdate(c, i, d[i]);
  }

  /** The tokens there are: in the semaphore, held, owed or about to be posted. */
  function Total(s: State, sem: Sem): nat {
    Value(s, sem) + Sum(Claims(s, sem))
  }

  /** No token is ever lost. */
  ghost predicate Covered(s: State, sem: Sem) {
    Total(s, sem) >= s.workers
  }

  /** The supervisor decides to give back a token that the dead worker did not hold. */
  predicate Surplus(s: State, step: Step, sem: Sem) {
    step.Check? && s.phase.Restoring? && s.phase.sem == sem && Value(s, sem) < s.workers && !Holds(s.phase.died, sem)
  }

  /** The supervisor decides not to give back a token that the dead worker held. */
  predicate Absorbed(s: State, step: Step, sem: Sem) {
    step.Check? && s.phase.Restoring? && s.phase.sem == sem && Value(s, sem) >= s.workers && Holds(s.phase.died, sem)
  }

  /** How a step changes the number of tokens. */
  function Change(s: State, step: Step, sem: Sem): int {
    Bit(Surplus(s, step, sem)) - Bit(Absorbed(s, step, sem))
  }

  /** A worker that moves to another stage changes the claim of its own slot only. */
  lemma MoveChangesOneClaim(s: State, pid: int, stage: Stage, sem: Sem)
    requires Supervised(s) && pid in s.children && s.children[pid].Worker?
    ensures Sum(Claims(MoveTo(s, pid, stage), sem)) ==
            Sum(Claims(s, sem)) - Bit(Holds(s.children[pid].stage, sem)) + Bit(Holds(stage, sem))
  {
    var s' := MoveTo(s, pid, stage);
    var i := WorkerSlot(s, pid);
    hide Supervised, Claim;
    forall j: nat | j < |s.pids| && j != i ensures Claim(s', sem, j) == Claim(s, sem, j) {
      ClaimElsewhere(s, pid, stage, sem, j);
    }
    ClaimOfWorker(s, pid, sem, i);
    ClaimOfWorker(s', pid, sem, i);
    OneSlot(Claims(s, sem), Claims(s', sem), i);
  }

  /** The one slot of a worker. */
  lemma WorkerSlot(s: State, pid: int) returns (i: nat)
    requires Supervised(s) && pid in s.children && s.children[pid].Worker?
    ensures i < |s.pids| && s.pids[i] == pid && forall j | 0 <= j < |s.pids| && j != i :: s.pids[j] != pid
  {
    i := SlotOf(s.pids, pid);
    assert pid in s.pids && i < |s.pids|;
    forall j | 0 <= j < |s.pids| && j != i ensures s.pids[j] != pid {}
  }

  lemma ClaimElsewhere(s: State, pid: int, stage: Stage, sem: Sem, j: nat)
    requires pid in s.children && j < |s.pids| && s.pids[j] != pid
    ensures Claim(MoveTo(s, pid, stage), sem, j) == Claim(s, sem, j)
  {}

  lemma ClaimOfWorker(s: State, pid: int, sem: Sem, i: nat)
    requires pid in s.children && s.children[pid].Worker? && i < |s.pids| && s.pids[i] == pid
    ensures Claim(s, sem, i) == Bit(Holds(s.children[pid].stage, sem))
  {}

  /** The stage a request step leads to. */
  function StageAfter(s: State, step: Step): Stage {
    match step
    case TakeConc(_) => if s.conc > 0 then GotConc else Accepting
    case TakeShed(_) => if s.shed > 0 then Serving else Finishing
    case ReleaseShed(_) => Finishing
    case _ => Accepting
  }

  lemma ClaimsLookAtChildren(s: State, s': State, sem: Sem)
    requires s'.pids == s.pids && s'.children == s.children && s'.phase == s.phase
    ensures Claims(s', sem) == Claims(s, sem)
  {}

  lemma WorkerStepConserves(s: State, step: Step, sem: Sem)
    requires Supervised(s) && Enabled(s, step)
    requires step.TakeConc? || step.TakeShed? || step.ReleaseShed? || step.ReleaseConc?
    ensures Total(After(s, step), sem) == Total(s, sem)
  {
    hide Supervised, Claims;
    var next := StageAfter(s, step);
    MoveChangesOneClaim(s, step.pid, next, sem);
    assert MoveTo(s, step.pid, Accepting).children == s.children || !step.TakeConc? || s.conc > 0;
    ClaimsLookAtChildren(MoveTo(s, step.pid, next), After(s, step), sem);
  }

  lemma DeathKeepsClaims(s: State, pid: int, sem: Sem)
    requires Enabled(s, Dies(pid))
    ensures Claims(After(s, Dies(pid)), sem) == Claims(s, sem)
  {}

  lemma ForkConserves(s: State, pid: int, ok: bool, sem: Sem)
    requires Supervised(s) && Forking(s.phase) && !AfterFork(s, pid, ok).phase.Stopped?
    requires ok ==> pid > 0 && pid !in s.children
    ensures Total(AfterFork(s, pid, ok), sem) == Total(s, sem)
  {
    var s' := AfterFork(s, pid, ok);
    assert s.phase.Respawning? ==> Restarting(s.phase, s.phase.slot);
    assert -1 !in s.children;
    forall i | 0 <= i < |s.pids| ensures Claim(s, sem, i) == Claim(s', sem, i) {
      if s.pids[i] in s.children {
        assert s'.pids[i] == s.pids[i];
      }
    }
    assert Claims(s, sem) == Claims(s', sem);
  }

  lemma ReapConserves(s: State, pid: int, sem: Sem)
    requires Supervised(s) && s.phase.Waiting? && pid in s.children
    ensures Total(AfterReap(s, pid, false), sem) == Total(s, sem)
  {
    var s' := AfterReap(s, pid, false);
    var k := SlotOf(s.pids, pid);
    forall i | 0 <= i < |s.pids| ensures Claim(s, sem, i) == Claim(s', sem, i) {
      if s.pids[i] == pid {
        assert s.children[pid].Worker? && pid != s.readerPid;
        assert k == i;
      }
    }
    assert Claims(s, sem) == Claims(s', sem);
  }

  lemma CheckConserves(s: State, sem: Sem)
    requires Supervised(s) && s.phase.Restoring?
    ensures Total(AfterCheck(s), sem) == Total(s, sem) + Change(s, Check, sem)
  {
    var s', i := AfterCheck(s), s.phase.slot;
    assert Restarting(s.phase, i);
    hide Supervised;
    forall j: nat | j < |s.pids| ensures j != i ==> Claim(s', sem, j) == Claim(s, sem, j)
                                 ensures j == i ==> CheckChanges(s, sem, i)
    {
      ClaimAtCheck(s, sem, j);
    }
    hide Claim, AfterCheck, Change;
    OneSlot(Claims(s, sem), Claims(s', sem), i);
  }

  predicate CheckChanges(s: State, sem: Sem, i: nat)
    requires s.phase.Restoring? && i < |s.pids|
  {
    && Value(AfterCheck(s), sem) == Value(s, sem)
    && Claim(AfterCheck(s), sem, i) == Claim(s, sem, i) + Change(s, Check, sem)
  }

  lemma ClaimAtCheck(s: State, sem: Sem, j: nat)
    requires s.phase.Restoring? && j < |s.pids| && s.phase.slot < |s.pids| && s.pids[s.phase.slot] !in s.children
    ensures j != s.phase.slot ==> Claim(AfterCheck(s), sem, j) == Claim(s, sem, j)
    ensures j == s.phase.slot ==> CheckChanges(s, sem, j)
  {}

  lemma PostConserves(s: State, sem: Sem)
    requires Supervised(s) && s.phase.Posting?
    ensures Total(AfterPost(s), sem) == Total(s, sem)
  {
    var s', i := AfterPost(s), s.phase.slot;
    assert Restarting(s.phase, i);
    hide Supervised;
    forall j: nat | j < |s.pids| ensures j != i ==> Claim(s', sem, j) == Claim(s, sem, j) {
      ClaimAtPost(s, sem, j);
    }
    ClaimAtPost(s, sem, i);
    hide Claim, AfterPost;
    OneSlot(Claims(s, sem), Claims(s', sem), i);
  }

  lemma ClaimAtPost(s: State, sem: Sem, j: nat)
    requires s.phase.Posting? && j < |s.pids| && s.phase.slot < |s.pids| && s.pids[s.phase.slot] !in s.children
    ensures |AfterPost(s).pids| == |s.pids|
    ensures j != s.phase.slot ==> Claim(AfterPost(s), sem, j) == Claim(s, sem, j)
    ensures j == s.phase.slot ==>
              Value(AfterPost(s), sem) + Claim(AfterPost(s), sem, j) == Value(s, sem) + Claim(s, sem, j)
  {}

  /** Unless the pool stops, the restore rule alone makes or loses tokens. */
  lemma StepConserves(s: State, step: Step, sem: Sem)
    requires Supervised(s) && Enabled(s, step) && !After(s, step).phase.Stopped?
    ensures Total(After(s, step), sem) == Total(s, sem) + Change(s, step, sem)
  {
    hide Supervised, Total, Claims;
    match step
    case Fork(pid) => ForkConserves(s, pid, true, sem);
    case ForkFails => ForkConserves(s, -1, false, sem);
    case Reap(pid, _) => ReapConserves(s, pid, sem);
    case Check => CheckConserves(s, sem);
    case Post => PostConserves(s, sem);
    case Dies(pid) => DeathConserves(s, pid, sem);
    case TakeConc(_) => WorkerStepConserves(s, step, sem);
    case TakeShed(_) => WorkerStepConserves(s, step, sem);
    case ReleaseShed(_) => WorkerStepConserves(s, step, sem);
    case ReleaseConc(_) => WorkerStepConserves(s, step, sem);
    case _ =>
  }

  lemma DeathConserves(s: State, pid: int, sem: Sem)
    requires Enabled(s, Dies(pid))
    ensures Total(After(s, Dies(pid)), sem) == Total(s, sem)
  {
    DeathKeepsClaims(s, pid, sem);
  }

  lemma StopKeepsCover(s: State, s': State, sem: Sem)
    requires Supervised(s) && Covered(s, sem)
    requires s'.phase.Stopped? && s'.pids == s.pids && Value(s', sem) == Value(s, sem) && s'.workers == s.workers
    requires forall pid | pid in s'.children :: pid in s.children && s'.children[pid] == s.children[pid]
    ensures Covered(s', sem)
  {
    forall i | 0 <= i < |s.pids| ensures Claim(s, sem, i) <= Claim(s', sem, i) {
      var pid := s.pids[i];
      if pid in s'.children {
        assert pid in s.children;
      } else {
        assert Claim(s', sem, i) == 1;
      }
    }
    SumGrows(Claims(s, sem), Claims(s', sem));
  }

  lemma StepKeepsCover(s: State, step: Step, sem: Sem)
    requires Supervised(s) && Covered(s, sem) && Enabled(s, step)
    ensures Covered(After(s, step), sem)
  {
    if !After(s, step).phase.Stopped? {
      StepConserves(s, step, sem);
      StepKeepsSize(s, step);
      hide After, Supervised, Claims;
      if Absorbed(s, step, sem) {
        AbsorbingLeavesEnough(s, sem);
      }
    } else if s.phase.Stopped? && !step.DrainReap? {
      StoppedWorkersKeepCover(s, step, sem);
    } else {
      StoppingLeavesChildren(s, step);
      hide Supervised, Claims, After;
      StopKeepsCover(s, After(s, step), sem);
    }
  }

  lemma StepKeepsSize(s: State, step: Step)
    requires Enabled(s, step)
    ensures After(s, step).workers == s.workers
  {}

  /** A restore is left out only when the semaphore is full. */
  lemma AbsorbingLeavesEnough(s: State, sem: Sem)
    requires Enabled(s, Check) && Absorbed(s, Check, sem)
    ensures Total(After(s, Check), sem) >= s.workers
  {
    hide Claims;
    assert Value(After(s, Check), sem) == Value(s, sem);
  }

  lemma StoppedWorkersKeepCover(s: State, step: Step, sem: Sem)
    requires Supervised(s) && Covered(s, sem) && Enabled(s, step) && s.phase.Stopped? && !step.DrainReap?
    ensures Covered(After(s, step), sem)
  {
    hide Supervised, Total, Claims;
    if step.Dies? {
      DeathConserves(s, step.pid, sem);
    } else {
      WorkerStepConserves(s, step, sem);
    }
  }

  lemma StoppingLeavesChildren(s: State, step: Step)
    requires Enabled(s, step) && After(s, step).phase.Stopped? && (s.phase.Stopped? ==> step.DrainReap?)
    ensures var s' := After(s, step);
            && s'.pids == s.pids && s'.workers == s.workers && s'.conc == s.conc && s'.shed == s.shed
            && forall pid | pid in s'.children :: pid in s.children && s'.children[pid] == s.children[pid]
  {}

  /** A live worker that does not hold a token always gets one. */
  lemma TokenIsAvailable(s: State, pid: int, stage: Stage, sem: Sem)
    requires Supervised(s) && Covered(s, sem) && LiveWorker(s, pid, stage) && !Holds(stage, sem)
    ensures Value(s, sem) > 0
  {
    var i := SlotOf(s.pids, pid);
    assert pid in s.pids && i < |s.pids|;
    var c := Claims(s, sem);
    assert c[i] == 0;
    SumAtMost(c);
  }

  lemma {:induction false} RunKeepsPool(s: State, steps: seq<Step>)
    requires IsRun(s, steps) && Supervised(s) && Covered(s, Conc) && Covered(s, Shed) && !s.rejected
    ensures var s' := Run(s, steps);
            Supervised(s') && Covered(s', Conc) && Covered(s', Shed) && !s'.rejected
    decreases |steps|
  {
    hide Supervised, Covered, Enabled, After;
    if steps != [] {
      StepKeepsSupervised(s, steps[0]);
      StepKeepsCover(s, steps[0], Conc);
      StepKeepsCover(s, steps[0], Shed);
      StepRejectsNobody(s, steps[0]);
      RunKeepsPool(After(s, steps[0]), steps[1..]);
    }
  }

  lemma StepRejectsNobody(s: State, step: Step)
    requires Supervised(s) && Covered(s, Conc) && Covered(s, Shed) && Enabled(s, step) && !s.rejected
    ensures !After(s, step).rejected
  {
    hide Supervised, Covered;
    if step.TakeConc? {
      TokenIsAvailable(s, step.pid, Accepting, Conc);
    } else if step.TakeShed? {
      TokenIsAvailable(s, step.pid, GotConc, Shed);
    }
  }

  lemma {:induction false} InitIsFine(n: nat)
    ensures Supervised(Init(n)) && Covered(Init(n), Conc) && Covered(Init(n), Shed)
  {}

  /** Pool capacity under crashes: whatever dies and whenever, no `/r` request is ever turned
      away, and the tokens never add up to less than the size of the pool. */
  lemma CapacitySurvivesCrashes(n: nat, steps: seq<Step>, sem: Sem)
    requires IsRun(Init(n), steps)
    ensures var s := Run(Init(n), steps);
            && !s.rejected && Total(s, sem) >= n
            && (forall pid | LiveWorker(s, pid, Accepting) :: s.conc > 0)
            && (forall pid | LiveWorker(s, pid, GotConc) :: s.shed > 0)
  {
    InitIsFine(n);
    RunKeepsPool(Init(n), steps);
    RunKeepsSize(Init(n), steps);
    hide Supervised, Covered, LiveWorker;
    var s := Run(Init(n), steps);
    forall pid | LiveWorker(s, pid, Accepting) ensures s.conc > 0 {
      TokenIsAvailable(s, pid, Accepting, Conc);
    }
    forall pid | LiveWorker(s, pid, GotConc) ensures s.shed > 0 {
      TokenIsAvailable(s, pid, GotConc, Shed);
    }
    CoverIs(s, sem);
  }

  lemma CoverIs(s: State, sem: Sem)
    requires Covered(s, sem)
    ensures Total(s, sem) >= s.workers
  {}

  lemma {:induction false} RunKeepsSize(s: State, steps: seq<Step>)
    requires IsRun(s, steps)
    ensures Run(s, steps).workers == s.workers
    decreases |steps|
  {
    if steps != [] {
      RunKeepsSize(After(s, steps[0]), steps[1..]);
    }
  }

  function WorkerPids(s: State): set<int> {
    set p | p in s.children && s.children[p].Worker?
  }

  /** Supervisor safety: there is never a second cache reader, every unreaped worker is in
      exactly one slot, and there are never more workers than slots. */
  lemma ChildrenAreSupervised(n: nat, steps: seq<Step>)
    requires IsRun(Init(n), steps)
    ensures var s := Run(Init(n), steps);
            && (forall p | p in s.children && s.children[p].Reader? :: p == s.readerPid && p !in s.pids)
            && (forall p | p in s.children && s.children[p].Worker? ::
                  exists i :: 0 <= i < |s.pids| && s.pids[i] == p && forall j | 0 <= j < |s.pids| && j != i :: s.pids[j] != p)
            && |WorkerPids(s)| <= n
  {
    InitIsFine(n);
    RunKeepsPool(Init(n), steps);
    RunKeepsSize(Init(n), steps);
    var s := Run(Init(n), steps);
    forall p | p in s.children && s.children[p].Worker?
      ensures exists i :: 0 <= i < |s.pids| && s.pids[i] == p && forall j | 0 <= j < |s.pids| && j != i :: s.pids[j] != p
    {
      var i := SlotOf(s.pids, p);
      assert p in s.pids && i < |s.pids| && s.pids[i] == p;
      forall j | 0 <= j < |s.pids| && j != i ensures s.pids[j] != p {}
    }
    FewerThanSlots(WorkerPids(s), s.pids);
  }

  lemma {:induction false} FewerThanSlots(found: set<int>, pids: seq<int>)
    requires forall p | p in found :: p in pids
    ensures |found| <= |pids|
  {
    if pids != [] {
      FewerThanSlots(found - {pids[0]}, pids[1..]);
    } else {
      assert forall p :: p in found ==> p in pids;
      assert forall p: int :: p !in pids;
      assert found == {};
    }
  }

  // ---- The other direction: how many tokens there can be ----

  /** The token of `sem` held by the live worker in slot `i`. */
  function Held(s: State, sem: Sem, i: nat): (c: nat)
    requires i < |s.pids|
    ensures c <= 1
  {
    Bit(s.pids[i] in s.children && s.children[s.pids[i]].Worker? && s.children[s.pids[i]].alive
      && Holds(s.children[s.pids[i]].stage, sem))
  }

  function AllHeld(s: State, sem: Sem): (c: seq<nat>)
    ensures |c| == |s.pids|
  {
    seq(|s.pids|, i requires 0 <= i < |s.pids| => Held(s, sem, i))
  }

  ghost predicate Bounded(s: State, sem: Sem) {
    Value(s, sem) + Sum(AllHeld(s, sem)) + Bit(s.phase.Posting? && s.phase.sem == sem) <= 2 * s.workers - 1
  }

  lemma MoveChangesOneHeld(s: State, pid: int, stage: Stage, sem: Sem)
    requires Supervised(s) && pid in s.children && s.children[pid].Worker? && s.children[pid].alive
    ensures Sum(AllHeld(MoveTo(s, pid, stage), sem)) ==
            Sum(AllHeld(s, sem)) - Bit(Holds(s.children[pid].stage, sem)) + Bit(Holds(stage, sem))
  {
    var s' := MoveTo(s, pid, stage);
    var i := WorkerSlot(s, pid);
    hide Supervised, Held;
    forall j: nat | j < |s.pids| ensures j != i ==> Held(s', sem, j) == Held(s, sem, j)
                                 ensures j == i ==> Held(s, sem, j) == Bit(Holds(s.children[pid].stage, sem))
                                                    && Held(s', sem, j) == Bit(Holds(stage, sem))
    {
      HeldAfterMove(s, pid, stage, sem, j);
    }
    OneSlot(AllHeld(s, sem), AllHeld(s', sem), i);
  }

  lemma HeldAfterMove(s: State, pid: int, stage: Stage, sem: Sem, j: nat)
    requires j < |s.pids| && pid in s.children && s.children[pid].Worker? && s.children[pid].alive
    ensures s.pids[j] != pid ==> Held(MoveTo(s, pid, stage), sem, j) == Held(s, sem, j)
    ensures s.pids[j] == pid ==> Held(s, sem, j) == Bit(Holds(s.children[pid].stage, sem))
                                 && Held(MoveTo(s, pid, stage), sem, j) == Bit(Holds(stage, sem))
  {}

  lemma HeldLooksAtChildren(s: State, s': State, sem: Sem)
    requires s'.pids == s.pids && s'.children == s.children
    ensures AllHeld(s', sem) == AllHeld(s, sem)
  {}

  lemma WorkerStepKeepsBound(s: State, step: Step, sem: Sem)
    requires Supervised(s) && Bounded(s, sem) && Enabled(s, step)
    requires step.TakeConc? || step.TakeShed? || step.ReleaseShed? || step.ReleaseConc?
    ensures Bounded(After(s, step), sem)
  {
    hide Supervised, AllHeld;
    var next := StageAfter(s, step);
    MoveChangesOneHeld(s, step.pid, next, sem);
    assert MoveTo(s, step.pid, Accepting).children == s.children || !step.TakeConc? || s.conc > 0;
    HeldLooksAtChildren(MoveTo(s, step.pid, next), After(s, step), sem);
  }

  lemma CheckKeepsBound(s: State, sem: Sem)
    requires Supervised(s) && Bounded(s, sem) && s.phase.Restoring?
    ensures Bounded(AfterCheck(s), sem)
  {
    var i := s.phase.slot;
    assert Restarting(s.phase, i) && Held(s, sem, i) == 0;
    hide Supervised, Held;
    HeldLooksAtChildren(s, AfterCheck(s), sem);
    var c := AllHeld(s, sem);
    assert c[i] == 0;
    SumAtMost(c);
  }

  lemma ForkTakesNoToken(s: State, pid: int, ok: bool, sem: Sem, i: nat)
    requires Forking(s.phase) && i < |s.pids| && (ok ==> pid !in s.children) && -1 !in s.children
    ensures |AfterFork(s, pid, ok).pids| == |s.pids| && Held(AfterFork(s, pid, ok), sem, i) <= Held(s, sem, i)
  {}

  lemma DeathTakesNoToken(s: State, s': State, sem: Sem, i: nat)
    requires s'.pids == s.pids && i < |s.pids|
    requires forall pid | pid in s'.children ::
               pid in s.children && (s'.children[pid] == s.children[pid] || !s'.children[pid].alive)
    ensures Held(s', sem, i) <= Held(s, sem, i)
  {
    var pid := s.pids[i];
    if pid in s'.children {
      assert pid in s.children && (s'.children[pid] == s.children[pid] || !s'.children[pid].alive);
    }
  }

  lemma OtherStepTakesNoToken(s: State, step: Step, sem: Sem, i: nat)
    requires Enabled(s, step) && i < |s.pids| && -1 !in s.children
    requires !step.TakeConc? && !step.TakeShed? && !step.ReleaseShed? && !step.ReleaseConc?
    ensures |After(s, step).pids| == |s.pids| && Held(After(s, step), sem, i) <= Held(s, sem, i)
  {
    hide Held, AfterFork;
    if step.Fork? || step.ForkFails? {
      ForkTakesNoToken(s, if step.Fork? then step.pid else -1, step.Fork?, sem, i);
    } else {
      DeathTakesNoToken(s, After(s, step), sem, i);
    }
  }

  /** A post only carries out what was decided. */
  lemma OtherStepPosts(s: State, step: Step, sem: Sem)
    requires Enabled(s, step)
    requires !step.TakeConc? && !step.TakeShed? && !step.ReleaseShed? && !step.ReleaseConc? && !step.Check?
    ensures var s' := After(s, step);
            && s'.workers == s.workers
            && Value(s', sem) + Bit(s'.phase.Posting? && s'.phase.sem == sem) ==
               Value(s, sem) + Bit(s.phase.Posting? && s.phase.sem == sem)
  {}

  lemma OtherStepKeepsBound(s: State, step: Step, sem: Sem)
    requires Supervised(s) && Bounded(s, sem) && Enabled(s, step) && |s.pids| > 0
    requires !step.TakeConc? && !step.TakeShed? && !step.ReleaseShed? && !step.ReleaseConc? && !step.Check?
    ensures Bounded(After(s, step), sem)
  {
    hide Held, After, Enabled;
    var s' := After(s, step);
    OtherStepPosts(s, step, sem);
    OtherStepTakesNoToken(s, step, sem, 0);
    forall i | 0 <= i < |s.pids| ensures Held(s', sem, i) <= Held(s, sem, i) {
      OtherStepTakesNoToken(s, step, sem, i);
    }
    SumGrows(AllHeld(s', sem), AllHeld(s, sem));
  }

  lemma {:induction false} RunKeepsBound(s: State, steps: seq<Step>, sem: Sem)
    requires IsRun(s, steps) && Supervised(s) && Bounded(s, sem) && s.workers > 0
    ensures Bounded(Run(s, steps), sem)
    decreases |steps|
  {
    assert |s.pids| == s.workers;
    if steps != [] {
      RunKeepsSize(s, [steps[0]]);
      assert Run(s, [steps[0]]) == After(s, steps[0]);
    }
    hide Supervised, Bounded, Enabled, After;
    if steps != [] {
      var step := steps[0];
      StepKeepsSupervised(s, step);
      if step.TakeConc? || step.TakeShed? || step.ReleaseShed? || step.ReleaseConc? {
        WorkerStepKeepsBound(s, step, sem);
      } else if step.Check? {
        CheckStepKeepsBound(s, sem);
      } else {
        OtherStepKeepsBound(s, step, sem);
      }
      RunKeepsBound(After(s, step), steps[1..], sem);
    }
  }

  lemma CheckStepKeepsBound(s: State, sem: Sem)
    requires Enabled(s, Check) && Supervised(s) && Bounded(s, sem)
    ensures Bounded(After(s, Check), sem)
  {
    CheckKeepsBound(s, sem);
  }

  lemma {:induction false} NothingHeldInitially(n: nat, sem: Sem)
    ensures Sum(AllHeld(Init(n), sem)) == 0
  {
    var c := AllHeld(Init(n), sem);
    AllZero(c);
  }

  /** A semaphore never holds as many as twice the initial tokens. */
  lemma TokensStayBelowTwiceThePool(n: nat, steps: seq<Step>, sem: Sem)
    requires n > 0 && IsRun(Init(n), steps)
    ensures Value(Run(Init(n), steps), sem) < 2 * n
  {
    InitIsFine(n);
    NothingHeldInitially(n, sem);
    RunKeepsBound(Init(n), steps, sem);
    RunKeepsSize(Init(n), steps);
  }

  // ---- When the capacity is kept exactly ----

  lemma {:induction false} StoppedStays(s: State, steps: seq<Step>)
    requires IsRun(s, steps) && s.phase.Stopped?
    ensures Run(s, steps).phase.Stopped?
    decreases |steps|
  {
    if steps != [] {
      StoppedStays(After(s, steps[0]), steps[1..]);
    }
  }

  /** The sum of the changes along a run. */
  function Changes(s: State, steps: seq<Step>, sem: Sem): int
    requires IsRun(s, steps)
    decreases |steps|
  {
    if steps == [] then 0 else Change(s, steps[0], sem) + Changes(After(s, steps[0]), steps[1..], sem)
  }

  lemma {:induction false} RunConserves(s: State, steps: seq<Step>, sem: Sem)
    requires IsRun(s, steps) && Supervised(s) && !Run(s, steps).phase.Stopped?
    ensures Total(Run(s, steps), sem) == Total(s, sem) + Changes(s, steps, sem)
    decreases |steps|
  {
    hide Supervised, Total, Change, Enabled, After;
    if steps != [] {
      if After(s, steps[0]).phase.Stopped? {
        StoppedStays(After(s, steps[0]), steps[1..]);
      }
      StepKeepsSupervised(s, steps[0]);
      StepConserves(s, steps[0], sem);
      RunConserves(After(s, steps[0]), steps[1..], sem);
    }
  }

  lemma {:induction false} AllZero(c: seq<nat>)
    requires forall i | 0 <= i < |c| :: c[i] == 0
    ensures Sum(c) == 0
  {
    if c != [] {
      AllZero(c[1..]);
    }
  }

  lemma NothingClaimedInitially(n: nat, sem: Sem)
    ensures Total(Init(n), sem) == n
  {
    AllZero(Claims(Init(n), sem));
  }

  /** Conservation: in every run that has not stopped, the tokens are the initial ones, plus
      those given back for workers that held none, minus those not given back for workers
      that held one. The semaphore exceeds its initial capacity exactly when that balance
      exceeds the claims. */
  lemma TokensAreConserved(n: nat, steps: seq<Step>, sem: Sem)
    requires IsRun(Init(n), steps) && !Run(Init(n), steps).phase.Stopped?
    ensures var s := Run(Init(n), steps);
            && Total(s, sem) == n + Changes(Init(n), steps, sem)
            && (Value(s, sem) > n <==> Changes(Init(n), steps, sem) > Sum(Claims(s, sem)))
  {
    InitIsFine(n);
    NothingClaimedInitially(n, sem);
    hide Supervised, Claims;
    RunConserves(Init(n), steps, sem);
  }

  /** Every state of a run has exactly as many tokens as workers. */
  predicate AlwaysExact(s: State, steps: seq<Step>, sem: Sem)
    requires IsRun(s, steps)
    decreases |steps|
  {
    Total(s, sem) == s.workers && (steps != [] ==> AlwaysExact(After(s, steps[0]), steps[1..], sem))
  }

  /** No step of a run gives back a token that was not held. */
  predicate NeverSurplus(s: State, steps: seq<Step>, sem: Sem)
    requires IsRun(s, steps)
    decreases |steps|
  {
    steps != [] ==> !Surplus(s, steps[0], sem) && NeverSurplus(After(s, steps[0]), steps[1..], sem)
  }

  /** A full semaphore and a dead worker's token are more than there are workers. */
  lemma ExactAbsorbsNothing(s: State, step: Step, sem: Sem)
    requires Supervised(s) && Total(s, sem) == s.workers
    ensures !Absorbed(s, step, sem)
  {
    if Absorbed(s, step, sem) {
      var c, i := Claims(s, sem), s.phase.slot;
      assert Restarting(s.phase, i) && c[i] == 1;
      SumUpdate(c, i, 0);
    }
  }

  lemma {:induction false} ExactAlongExactlyWhen(s: State, steps: seq<Step>, sem: Sem)
    requires IsRun(s, steps) && Supervised(s) && !Run(s, steps).phase.Stopped? && Total(s, sem) == s.workers
    ensures AlwaysExact(s, steps, sem) <==> NeverSurplus(s, steps, sem)
    decreases |steps|
  {
    if steps != [] {
      var s', rest := After(s, steps[0]), steps[1..];
      StepKeepsSize(s, steps[0]);
      ExactAbsorbsNothing(s, steps[0], sem);
      hide Supervised, Total, Surplus, Absorbed, Enabled, After;
      if s'.phase.Stopped? {
        StoppedStays(s', rest);
      }
      StepKeepsSupervised(s, steps[0]);
      StepConserves(s, steps[0], sem);
      if !Surplus(s, steps[0], sem) {
        ExactAlongExactlyWhen(s', rest, sem);
      }
    }
  }

  /** The pool keeps its capacity, no more and no less, exactly in the runs in which the
      supervisor never finds a semaphore below its capacity after the death of a worker that
      held no token of it. */
  lemma CapacityIsExactExactlyWhen(n: nat, steps: seq<Step>, sem: Sem)
    requires IsRun(Init(n), steps) && !Run(Init(n), steps).phase.Stopped?
    ensures AlwaysExact(Init(n), steps, sem) <==> NeverSurplus(Init(n), steps, sem)
    ensures NeverSurplus(Init(n), steps, sem) ==> Value(Run(Init(n), steps), sem) <= n
  {
    InitIsFine(n);
    NothingClaimedInitially(n, sem);
    hide Supervised, Total, Claims;
    ExactAlongExactlyWhen(Init(n), steps, sem);
    if AlwaysExact(Init(n), steps, sem) {
      ExactAtTheEnd(Init(n), steps, sem);
      RunKeepsSize(Init(n), steps);
    }
  }

  lemma {:induction false} ExactAtTheEnd(s: State, steps: seq<Step>, sem: Sem)
    requires IsRun(s, steps) && AlwaysExact(s, steps, sem)
    ensures Value(Run(s, steps), sem) <= Run(s, steps).workers
    decreases |steps|
  {
    if steps != [] {
      hide After, Enabled, Claims;
      ExactAtTheEnd(After(s, steps[0]), steps[1..], sem);
    }
  }

  /** A request is turned away exactly when a token is missing. */
  lemma TurnedAwayExactlyWhen(s: State, pid: int)
    ensures LiveWorker(s, pid, Accepting) ==> (After(s, TakeConc(pid)).rejected <==> s.rejected || s.conc == 0)
    ensures LiveWorker(s, pid, GotConc) ==> (After(s, TakeShed(pid)).rejected <==> s.rejected || s.shed == 0)
  {}

  /** Any child may die at any moment, and keeps its pid and its tokens until it is reaped. */
  lemma AnyChildMayDie(s: State, pid: int)
    requires pid in s.children && s.children[pid].alive
    ensures Enabled(s, Dies(pid))
    ensures var s' := After(s, Dies(pid));
            && s'.(children := s.children) == s && s'.children.Keys == s.children.Keys
            && !s'.children[pid].alive && s'.children[pid].(alive := true) == s.children[pid]
            && forall q | q in s.children && q != pid :: s'.children[q] == s.children[q]
  {}

  /** Once the pool stops, nobody is started any more. */
  lemma {:induction false} StoppedStartsNobody(s: State, steps: seq<Step>)
    requires IsRun(s, steps) && s.phase.Stopped?
    ensures Run(s, steps).children.Keys <= s.children.Keys
    decreases |steps|
  {
    if steps != [] {
      StoppedStartsNobody(After(s, steps[0]), steps[1..]);
    }
  }

  // ---- The bound is reached ----

  ghost predicate Reaches(s: State, t: State) {
    exists steps :: IsRun(s, steps) && Run(s, steps) == t
  }

  lemma {:induction false} RunAppend(s: State, first: seq<Step>, rest: seq<Step>)
    requires IsRun(s, first) && IsRun(Run(s, first), rest)
    ensures IsRun(s, first + rest) && Run(s, first + rest) == Run(Run(s, first), rest)
    decreases |first|
  {
    hide Enabled, After;
    if first == [] {
      assert first + rest == rest;
    } else {
      assert (first + rest)[1..] == first[1..] + rest;
      RunAppend(After(s, first[0]), first[1..], rest);
    }
  }

  lemma ReachesItself(s: State)
    ensures Reaches(s, s)
  {
    assert IsRun(s, []) && Run(s, []) == s;
  }

  lemma ReachesNext(s: State, t: State, step: Step)
    requires Reaches(s, t) && Enabled(t, step)
    ensures Reaches(s, After(t, step))
  {
    hide Enabled, After;
    var steps :| IsRun(s, steps) && Run(s, steps) == t;
    assert [step][1..] == [] && Run(After(t, step), []) == After(t, step);
    assert IsRun(t, [step]) && Run(t, [step]) == After(t, step);
    RunAppend(s, steps, [step]);
  }

  /** A worker at this stage has taken both tokens. */
  function BothTaken(s: State, pid: int): State
    requires s.conc > 0 && s.shed > 0
  {
    MoveTo(s, pid, Serving).(conc := s.conc - 1, shed := s.shed - 1)
  }

  lemma RequestIsServed(s: State, pid: int)
    requires LiveWorker(s, pid, Accepting) && s.conc > 0 && s.shed > 0
    ensures Reaches(s, BothTaken(s, pid))
  {
    hide Reaches;
    var s1 := After(s, TakeConc(pid));
    assert s1.children[pid := Worker(true, Serving)] == BothTaken(s, pid).children;
    ReachesItself(s);
    ReachesNext(s, s, TakeConc(pid));
    ReachesNext(s, s1, TakeShed(pid));
  }

  lemma RequestIsFinished(s: State, pid: int)
    requires LiveWorker(s, pid, Accepting) && s.conc > 0 && s.shed > 0
    ensures Reaches(BothTaken(s, pid), s)
  {
    hide Reaches;
    var s2 := BothTaken(s, pid);
    var s3 := After(s2, ReleaseShed(pid));
    assert s3.children[pid := Worker(true, Accepting)] == s.children;
    ReachesItself(s2);
    ReachesNext(s2, s2, ReleaseShed(pid));
    ReachesNext(s2, s3, ReleaseConc(pid));
  }

  /** Whatever the supervisor is doing, a request of a live worker that finds both tokens is
      served, and leaves the pool exactly as it was. */
  lemma RequestGoesThrough(s: State, pid: int)
    requires LiveWorker(s, pid, Accepting) && s.conc > 0 && s.shed > 0
    ensures Reaches(s, BothTaken(s, pid)) && Reaches(BothTaken(s, pid), s)
  {
    hide Reaches, BothTaken;
    RequestIsServed(s, pid);
    RequestIsFinished(s, pid);
  }

  /** The reader has pid 1, the worker in slot `i` has pid `i + 2`. */
  function Children(stages: seq<Stage>): (children: map<int, Child>)
    ensures forall p :: p in children <==> 1 <= p <= |stages| + 1
    ensures children[1] == Reader(true) && forall p | p in children && p != 1 :: children[p] == Worker(true, stages[p - 2])
  {
    if stages == [] then map[1 := Reader(true)]
    else Children(stages[..|stages| - 1])[|stages| + 1 := Worker(true, stages[|stages| - 1])]
  }

  function Pids(n: nat): (pids: seq<int>)
    ensures |pids| == n && forall i | 0 <= i < n :: pids[i] == i + 2
  {
    seq(n, i => i + 2)
  }

  /** All workers run, at these stages. */
  function Pool(conc: nat, shed: nat, stages: seq<Stage>): State {
    State(|stages|, conc, shed, 1, Pids(|stages|), Children(stages), Waiting, false)
  }

  /** The first `k` of `n` workers have been started. */
  function Starting(n: nat, k: nat): State
    requires k <= n
  {
    State(n, n, n, 1, seq(n, i => if i < k then i + 2 else -1), Children(seq(k, _ => Accepting)),
          if k < n then StartWorker(k) else Waiting, false)
  }

  lemma {:induction false} PoolStarts(n: nat, k: nat)
    requires k <= n
    ensures Reaches(Init(n), Starting(n, k))
  {
    if k == 0 {
      ReachesItself(Init(n));
      ReachesNext(Init(n), Init(n), Fork(1));
      assert Children(seq(0, _ => Accepting)) == map[][1 := Reader(true)];
      assert After(Init(n), Fork(1)) == Starting(n, 0);
    } else {
      PoolStarts(n, k - 1);
      var s := Starting(n, k - 1);
      ReachesNext(Init(n), s, Fork(k + 1));
      WorkerStarts(n, k);
    }
  }

  lemma WorkerStarts(n: nat, k: nat)
    requires 0 < k <= n
    ensures Enabled(Starting(n, k - 1), Fork(k + 1)) && After(Starting(n, k - 1), Fork(k + 1)) == Starting(n, k)
  {
    hide Children;
    var before, after := seq(k - 1, _ => Accepting), seq(k, _ => Accepting);
    assert Children(after) == Children(before)[k + 1 := Worker(true, Accepting)];
  }

  lemma PoolIsUp(n: nat)
    ensures Reaches(Init(n), Pool(n, n, seq(n, _ => Accepting)))
  {
    PoolStarts(n, n);
    assert Starting(n, n) == Pool(n, n, seq(n, _ => Accepting));
  }

  lemma MoveInPool(conc: nat, shed: nat, stages: seq<Stage>, i: nat, stage: Stage)
    requires i < |stages|
    ensures MoveTo(Pool(conc, shed, stages), i + 2, stage) == Pool(conc, shed, stages[i := stage])
    ensures LiveWorker(Pool(conc, shed, stages), i + 2, stages[i])
  {
    hide Children, Pids;
    assert Children(stages[i := stage]) == Children(stages)[i + 2 := Worker(true, stage)];
  }

  lemma WorkerTakes(s: State, conc: nat, stages: seq<Stage>, i: nat)
    requires i < |stages| && stages[i] == Accepting && conc > 0 && Reaches(s, Pool(conc, |stages|, stages))
    ensures Reaches(s, Pool(conc - 1, |stages|, stages[i := GotConc]))
  {
    MoveInPool(conc, |stages|, stages, i, GotConc);
    hide Reaches, Pool;
    ReachesNext(s, Pool(conc, |stages|, stages), TakeConc(i + 2));
    PoolFields(conc, |stages|, stages[i := GotConc], conc - 1, |stages|);
    PoolFields(conc, |stages|, stages, conc, |stages|);
  }

  lemma PoolFields(conc: nat, shed: nat, stages: seq<Stage>, conc': nat, shed': nat)
    ensures Pool(conc, shed, stages).(conc := conc', shed := shed') == Pool(conc', shed', stages)
    ensures Pool(conc, shed, stages).conc == conc && Pool(conc, shed, stages).shed == shed
  {}

  lemma WorkerServes(s: State, conc: nat, stages: seq<Stage>, i: nat)
    requires i < |stages| && stages[i] == GotConc && Reaches(s, Pool(conc, |stages|, stages))
    ensures Reaches(s, Pool(conc, |stages| - 1, stages[i := Serving]))
  {
    var n := |stages|;
    MoveInPool(conc, n, stages, i, Serving);
    PoolFields(conc, n, stages, conc, n);
    PoolFields(conc, n, stages[i := Serving], conc, n - 1);
    hide Reaches, Pool;
    ReachesNext(s, Pool(conc, n, stages), TakeShed(i + 2));
  }

  lemma WorkerServed(s: State, conc: nat, stages: seq<Stage>, i: nat)
    requires i < |stages| && stages[i] == Serving && Reaches(s, Pool(conc, |stages| - 1, stages))
    ensures Reaches(s, Pool(conc, |stages|, stages[i := Finishing]))
  {
    var n := |stages|;
    MoveInPool(conc, n - 1, stages, i, Finishing);
    PoolFields(conc, n - 1, stages, conc, n);
    PoolFields(conc, n - 1, stages[i := Finishing], conc, n);
    hide Reaches, Pool;
    ReachesNext(s, Pool(conc, n - 1, stages), ReleaseShed(i + 2));
  }

  lemma WorkerIsDone(s: State, conc: nat, stages: seq<Stage>, i: nat)
    requires i < |stages| && stages[i] == Finishing && Reaches(s, Pool(conc, |stages|, stages))
    ensures Reaches(s, Pool(conc + 1, |stages|, stages[i := Accepting]))
  {
    var n := |stages|;
    MoveInPool(conc, n, stages, i, Accepting);
    PoolFields(conc, n, stages, conc, n);
    PoolFields(conc, n, stages[i := Accepting], conc + 1, n);
    hide Reaches, Pool;
    ReachesNext(s, Pool(conc, n, stages), ReleaseConc(i + 2));
  }

  /** A worker that has its first token takes the second and gives both back. */
  lemma WorkerFinishes(s: State, conc: nat, stages: seq<Stage>, i: nat)
    requires i < |stages| && stages[i] == GotConc && Reaches(s, Pool(conc, |stages|, stages))
    ensures Reaches(s, Pool(conc + 1, |stages|, stages[i := Accepting]))
  {
    hide Reaches, Pool;
    var serving, finishing := stages[i := Serving], stages[i := Finishing];
    WorkerServes(s, conc, stages, i);
    WorkerServed(s, conc, serving, i);
    assert serving[i := Finishing] == finishing && finishing[i := Accepting] == stages[i := Accepting];
    WorkerIsDone(s, conc, finishing, i);
  }

  /** The supervisor has reaped the worker in slot `i`. */
  function Reaped(conc: nat, shed: nat, stages: seq<Stage>, i: nat, phase: Phase): State {
    Pool(conc, shed, stages).(children := Children(stages) - {i + 2}, phase := phase)
  }

  lemma WorkerIsReaped(s: State, conc: nat, shed: nat, stages: seq<Stage>, i: nat)
    requires i < |stages| && Reaches(s, Pool(conc, shed, stages))
    ensures Reaches(s, Reaped(conc, shed, stages, i, Restoring(Conc, i, stages[i])))
  {
    hide Reaches, Children, Pids;
    var pid, s0 := i + 2, Pool(conc, shed, stages);
    var s1 := s0.(children := Children(stages)[pid := Worker(false, stages[i])]);
    SlotOfPid(|stages|, i);
    assert s1.children - {pid} == Children(stages) - {pid};
    assert After(s0, Dies(pid)) == s1;
    ReachesNext(s, s0, Dies(pid));
    ReachesNext(s, s1, Reap(pid, false));
  }

  lemma SlotOfPid(n: nat, i: nat)
    requires i < n
    ensures SlotOf(Pids(n), i + 2) == i
  {
    var k := SlotOf(Pids(n), i + 2);
    assert Pids(n)[i] == i + 2;
  }

  lemma WorkerIsForked(s: State, conc: nat, shed: nat, stages: seq<Stage>, i: nat)
    requires i < |stages| && Reaches(s, Reaped(conc, shed, stages, i, Respawning(i)))
    ensures Reaches(s, Pool(conc, shed, stages[i := Accepting]))
  {
    hide Reaches, Children, Pids;
    var pid, t := i + 2, Reaped(conc, shed, stages, i, Respawning(i));
    assert t.children[pid := Worker(true, Accepting)] == Children(stages[i := Accepting]);
    assert Pids(|stages|)[i := pid] == Pids(|stages|);
    ReachesNext(s, t, Fork(pid));
  }

  /** A token more, up to the capacity. */
  function OneMore(value: nat, n: nat): nat {
    if value < n then value + 1 else value
  }

  /** The restore rule posts a token of each semaphore that is below its capacity. */
  lemma Restored(s: State, t: State)
    requires t.phase.Restoring? && t.phase.sem == Conc && Reaches(s, t)
    ensures Reaches(s, t.(conc := OneMore(t.conc, t.workers), shed := OneMore(t.shed, t.workers),
                          phase := Respawning(t.phase.slot)))
  {
    hide Reaches;
    var u := t.(conc := OneMore(t.conc, t.workers), phase := Restoring(Shed, t.phase.slot, t.phase.died));
    ReachesNext(s, t, Check);
    if t.conc < t.workers {
      ReachesNext(s, After(t, Check), Post);
    }
    RestoredSecond(s, u);
  }

  lemma RestoredSecond(s: State, t: State)
    requires t.phase.Restoring? && t.phase.sem == Shed && Reaches(s, t)
    ensures Reaches(s, t.(shed := OneMore(t.shed, t.workers), phase := Respawning(t.phase.slot)))
  {
    hide Reaches;
    ReachesNext(s, t, Check);
    if t.shed < t.workers {
      ReachesNext(s, After(t, Check), Post);
    }
  }

  /** Any worker may die at any stage of its request loop, and is replaced: each semaphore
      that is below its capacity gets a token, and the new worker starts afresh. */
  lemma WorkerIsReplaced(s: State, conc: nat, shed: nat, stages: seq<Stage>, i: nat)
    requires i < |stages| && Reaches(s, Pool(conc, shed, stages))
    ensures Reaches(s, Pool(OneMore(conc, |stages|), OneMore(shed, |stages|), stages[i := Accepting]))
  {
    hide Reaches, Children, Pids, OneMore;
    var t := Reaped(conc, shed, stages, i, Restoring(Conc, i, stages[i]));
    WorkerIsReaped(s, conc, shed, stages, i);
    Restored(s, t);
    WorkerIsForked(s, OneMore(conc, |stages|), OneMore(shed, |stages|), stages, i);
  }

  /** The first `k` workers have taken a token. */
  function Taken(n: nat, k: nat): seq<Stage> {
    seq(n, i => if i < k then GotConc else Accepting)
  }

  lemma TakenStep(n: nat, k: nat)
    requires 0 < k <= n
    ensures Taken(n, k - 1)[k - 1 := GotConc] == Taken(n, k) && Taken(n, k)[k - 1 := Accepting] == Taken(n, k - 1)
    ensures Taken(n, k - 1)[k - 1] == Accepting && Taken(n, k)[k - 1] == GotConc && Taken(n, k - 1)[n - 1] == Accepting
    ensures |Taken(n, k)| == |Taken(n, k - 1)| == n
  {}

  lemma {:induction false} WorkersTake(n: nat, k: nat)
    requires k < n
    ensures Reaches(Init(n), Pool(n - k, n, Taken(n, k)))
  {
    hide Reaches, Pool, Init;
    if k == 0 {
      PoolIsUp(n);
      assert Taken(n, 0) == seq(n, _ => Accepting);
    } else {
      hide Taken;
      WorkersTake(n, k - 1);
      TakenStep(n, k);
      WorkerTakes(Init(n), n - k + 1, Taken(n, k - 1), k - 1);
    }
  }

  lemma {:induction false} IdleWorkerDiesAgain(n: nat, conc: nat)
    requires 0 < conc <= n
    ensures Reaches(Init(n), Pool(conc, n, Taken(n, n - 1)))
  {
    hide Reaches, Pool, Init, Taken;
    if conc == 1 {
      WorkersTake(n, n - 1);
    } else {
      IdleWorkerDiesAgain(n, conc - 1);
      TakenStep(n, n);
      WorkerIsReplaced(Init(n), conc - 1, n, Taken(n, n - 1), n - 1);
      assert Taken(n, n - 1)[n - 1 := Accepting] == Taken(n, n - 1);
    }
  }

  lemma {:induction false} WorkersFinish(n: nat, k: nat)
    requires k < n
    ensures Reaches(Init(n), Pool(n + k, n, Taken(n, n - 1 - k)))
  {
    hide Reaches, Pool, Init, Taken;
    if k == 0 {
      IdleWorkerDiesAgain(n, n);
    } else {
      WorkersFinish(n, k - 1);
      TakenStep(n, n - k);
      WorkerFinishes(Init(n), n + k - 1, Taken(n, n - k), n - 1 - k);
    }
  }

  /** The restore rule does not keep a semaphore at its initial capacity: for every size of
      the pool some run reaches the bound above. All workers but one hold a token while that
      one dies again and again without one. */
  lemma BoundIsReached(n: nat)
    requires n > 0
    ensures exists steps :: IsRun(Init(n), steps) && Run(Init(n), steps).conc == 2 * n - 1
  {
    WorkersFinish(n, n - 1);
    var t := Pool(2 * n - 1, n, Taken(n, 0));
    assert Reaches(Init(n), t);
    var steps :| IsRun(Init(n), steps) && Run(Init(n), steps) == t;
  }

  // ---- Which children are restarted ----

  /** The supervisor has no reader and is not about to start one. */
  predicate ReaderGivenUp(s: State) {
    s.readerPid == -1 && !s.phase.StartReader? && !s.phase.ReaderDown?
  }

  /** Slot `i` is empty and the supervisor is not about to fill it. */
  predicate GivenUp(s: State, i: nat) {
    && i < |s.pids| && s.pids[i] == -1
    && !Restarting(s.phase, i) && !s.phase.StartReader? && (s.phase.StartWorker? ==> i < s.phase.slot)
  }

  /** The restart of the worker in slot `i` fails at this step. */
  predicate LosesSlot(s: State, step: Step, i: nat) {
    step.ForkFails? && s.phase == Respawning(i)
  }

  predicate LosesReader(s: State, step: Step) {
    step.ForkFails? && s.phase.ReaderDown?
  }

  lemma ForkGivesUpExactlyWhen(s: State, pid: int, ok: bool, i: nat)
    requires Supervised(s) && Forking(s.phase) && i < |s.pids| && (ok ==> pid > 0)
    requires !AfterFork(s, pid, ok).phase.Stopped?
    ensures GivenUp(AfterFork(s, pid, ok), i) <==> GivenUp(s, i) || (!ok && s.phase == Respawning(i))
    ensures ReaderGivenUp(AfterFork(s, pid, ok)) <==> ReaderGivenUp(s) || (!ok && s.phase.ReaderDown?)
  {
    hide Located, Apart;
    assert s.phase.Respawning? ==> Restarting(s.phase, s.phase.slot);
  }

  lemma ReapGivesNothingUp(s: State, pid: int, i: nat)
    requires Supervised(s) && s.phase.Waiting? && pid in s.children && i < |s.pids|
    ensures GivenUp(AfterReap(s, pid, false), i) <==> GivenUp(s, i)
    ensures ReaderGivenUp(AfterReap(s, pid, false)) <==> ReaderGivenUp(s)
  {
    assert pid > 0;
    hide Located, Apart, Settled;
  }

  /** While the pool runs, a child is given up exactly at a failed restart, and for good. */
  lemma StepGivesUpExactlyWhen(s: State, step: Step, i: nat)
    requires Supervised(s) && Enabled(s, step) && i < |s.pids| && !After(s, step).phase.Stopped?
    ensures GivenUp(After(s, step), i) <==> GivenUp(s, i) || LosesSlot(s, step, i)
    ensures ReaderGivenUp(After(s, step)) <==> ReaderGivenUp(s) || LosesReader(s, step)
  {
    hide Supervised, AfterFork, AfterReap;
    if step.Fork? || step.ForkFails? {
      ForkGivesUpExactlyWhen(s, if step.Fork? then step.pid else -1, step.Fork?, i);
    } else if step.Reap? {
      ShutdownStops(s, step.pid);
      ReapGivesNothingUp(s, step.pid, i);
    }
  }

  lemma ShutdownStops(s: State, pid: int)
    requires pid in s.children
    ensures AfterReap(s, pid, true).phase.Stopped?
  {}

  predicate SlotLost(s: State, steps: seq<Step>, i: nat)
    requires IsRun(s, steps)
    decreases |steps|
  {
    steps != [] && (LosesSlot(s, steps[0], i) || SlotLost(After(s, steps[0]), steps[1..], i))
  }

  predicate ReaderLost(s: State, steps: seq<Step>)
    requires IsRun(s, steps)
    decreases |steps|
  {
    steps != [] && (LosesReader(s, steps[0]) || ReaderLost(After(s, steps[0]), steps[1..]))
  }

  lemma {:induction false} RunGivesUpExactlyWhen(s: State, steps: seq<Step>, i: nat)
    requires IsRun(s, steps) && Supervised(s) && i < s.workers && !Run(s, steps).phase.Stopped?
    ensures Supervised(Run(s, steps))
    ensures GivenUp(Run(s, steps), i) <==> GivenUp(s, i) || SlotLost(s, steps, i)
    ensures ReaderGivenUp(Run(s, steps)) <==> ReaderGivenUp(s) || ReaderLost(s, steps)
    decreases |steps|
  {
    if steps != [] {
      StepKeepsSize(s, steps[0]);
      SlotsAreWorkers(s);
      hide Supervised, GivenUp, ReaderGivenUp, LosesSlot, LosesReader, Enabled, After;
      var s', rest := After(s, steps[0]), steps[1..];
      if s'.phase.Stopped? {
        StoppedStays(s', rest);
      }
      StepKeepsSupervised(s, steps[0]);
      StepGivesUpExactlyWhen(s, steps[0], i);
      RunGivesUpExactlyWhen(s', rest, i);
    }
  }

  lemma SlotsAreWorkers(s: State)
    requires Supervised(s)
    ensures |s.pids| == s.workers
  {}

  /** Whenever the supervisor waits, every slot has its worker and there is a cache reader,
      except exactly those children whose restart failed at some earlier fork. */
  lemma ChildrenAreRestartedExactlyWhen(n: nat, steps: seq<Step>, i: nat)
    requires IsRun(Init(n), steps) && Run(Init(n), steps).phase.Waiting? && i < n
    ensures var s := Run(Init(n), steps);
            && |s.pids| == n
            && (s.pids[i] in s.children <==> !SlotLost(Init(n), steps, i))
            && (s.readerPid in s.children <==> !ReaderLost(Init(n), steps))
  {
    InitIsFine(n);
    RunKeepsSize(Init(n), steps);
    RunGivesUpExactlyWhen(Init(n), steps, i);
    var s := Run(Init(n), steps);
    SlotsAreWorkers(s);
    hide IsRun, Run, SlotLost, ReaderLost;
    assert !Restarting(s.phase, i);
  }

  /** A pool of one worker that has lost its reader. */
  function WithoutReader(child: map<int, Child>, phase: Phase): State {
    State(1, 1, 1, -1, [2], child, phase, false)
  }

  lemma ReaderIsLost()
    ensures Reaches(Init(1), WithoutReader(map[2 := Worker(true, Accepting)], Waiting))
  {
    hide Reaches, Init;
    var s0 := State(1, 1, 1, 1, [2], map[1 := Reader(true), 2 := Worker(true, Accepting)], Waiting, false);
    var s1 := s0.(children := map[1 := Reader(false), 2 := Worker(true, Accepting)]);
    var s2 := s0.(children := map[2 := Worker(true, Accepting)], phase := ReaderDown);
    PoolIsUp(1);
    PoolOfOne();
    assert After(s0, Dies(1)) == s1;
    assert s1.children - {1} == s2.children;
    ReachesNext(Init(1), s0, Dies(1));
    ReachesNext(Init(1), s1, Reap(1, false));
    ReachesNext(Init(1), s2, ForkFails);
  }

  lemma PoolOfOne()
    ensures Pool(1, 1, seq(1, _ => Accepting)) ==
            State(1, 1, 1, 1, [2], map[1 := Reader(true), 2 := Worker(true, Accepting)], Waiting, false)
  {
    hide Children;
    assert Children(seq(1, _ => Accepting)) == map[1 := Reader(true), 2 := Worker(true, Accepting)];
  }

  lemma LastWorkerIsReaped()
    ensures Reaches(Init(1), WithoutReader(map[], Restoring(Conc, 0, Accepting)))
  {
    hide Reaches, Init;
    var s0 := WithoutReader(map[2 := Worker(true, Accepting)], Waiting);
    var s1 := WithoutReader(map[2 := Worker(false, Accepting)], Waiting);
    ReaderIsLost();
    assert After(s0, Dies(2)) == s1;
    assert s1.children - {2} == map[];
    ReachesNext(Init(1), s0, Dies(2));
    ReachesNext(Init(1), s1, Reap(2, false));
  }

  /** The exceptions are real: two failed forks leave a pool of one worker with no children
      at all. */
  lemma FailedForksLoseChildren()
    ensures Reaches(Init(1), State(1, 1, 1, -1, [-1], map[], Waiting, false))
  {
    hide Reaches, Init;
    var s0 := WithoutReader(map[], Restoring(Conc, 0, Accepting));
    var s1, s2 := s0.(phase := Restoring(Shed, 0, Accepting)), s0.(phase := Respawning(0));
    LastWorkerIsReaped();
    ReachesNext(Init(1), s0, Check);
    ReachesNext(Init(1), s1, Check);
    ReachesNext(Init(1), s2, ForkFails);
    assert [2][0 := -1] == [-1];
  }
}
