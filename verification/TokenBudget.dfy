/** The token ledger that processes share under a lock directory: reserve, dispatch, settle, in any interleaving. */
module TokenBudget {
  import opened Wrappers

  // ---------------------------------------------------------------------
  // Sums over a ledger
  // ---------------------------------------------------------------------

  ghost function Sum(m: map<nat, nat>): nat {
    if m == map[] then 0
    else
      var k :| k in m;
      m[k] + Sum(m - {k})
  }

  lemma {:induction false} SumWithout(m: map<nat, nat>, k: nat)
    requires k in m
    ensures Sum(m) == m[k] + Sum(m - {k})
    decreases |m|
  {
    var first :| first in m && Sum(m) == m[first] + Sum(m - {first});
    if first != k {
      SumWithout(m - {first}, k);
      SumWithout(m - {k}, first);
      assert m - {first} - {k} == m - {k} - {first};
    }
  }

  lemma SumUpdate(m: map<nat, nat>, k: nat, v: nat)
    ensures Sum(m[k := v]) == Sum(m) + v - if k in m then m[k] else 0
  {
    SumWithout(m[k := v], k);
    assert m[k := v] - {k} == m - {k};
    if k in m {
      SumWithout(m, k);
    } else {
      assert m - {k} == m;
    }
  }

  lemma {:induction false} SumCovers(small: map<nat, nat>, large: map<nat, nat>)
    requires forall k | k in small :: k in large && small[k] <= large[k]
    ensures Sum(small) <= Sum(large)
    decreases |small|
  {
    if small != map[] {
      var k :| k in small;
      SumWithout(small, k);
      SumWithout(large, k);
      SumCovers(small - {k}, large - {k});
    }
  }

  // ---------------------------------------------------------------------
  // Files, processes, steps
  // ---------------------------------------------------------------------

  /** The ledger file: what each attempt is charged, and which charges were measured rather than reserved. */
  datatype Ledger = Ledger(limit: int, charged: map<nat, nat>, measured: set<nat>)

  datatype Temporary = Missing | Partial | Whole(ledger: Ledger)

  datatype Job = Reserve(maximum: nat) | Settle(attempt: nat, tokens: nat)

  datatype Outcome = Raised | Granted(attempt: nat, maximum: nat) | Settled

  /** Where a process stands; from Holding to Releasing it has made the lock directory. */
  datatype Phase =
    | Idle
    | Waiting(job: Job)
    | Holding(job: Job)
    | Loaded(job: Job, ledger: Ledger)
    | Writing(next: Ledger, outcome: Outcome)
    | Written(next: Ledger, outcome: Outcome)
    | Releasing(outcome: Outcome)
    | Reserved(attempt: nat, maximum: nat)
    | InFlight(attempt: nat, maximum: nat)
    | Stopped
  {
    predicate Locked() {
      Holding? || Loaded? || Writing? || Written? || Releasing?
    }
  }

  datatype Process = Process(limit: int, phase: Phase)

  /** `used` is what the provider really spent on each dispatched attempt; no process reads it except from a reply. */
  datatype System = System(
    lock: Option<nat>, ledger: Option<Ledger>, temporary: Temporary,
    processes: map<nat, Process>, issued: set<nat>, used: map<nat, nat>)

  datatype Action =
    | Spawn(process: nat, limit: int)
    | Start(process: nat, maximum: nat)
    | Acquire(process: nat)
    | TimeOut(process: nat)
    | Load(process: nat)
    | Decide(process: nat, id: nat)
    | Flush(process: nat)
    | Replace(process: nat)
    | Abort(process: nat)
    | Release(process: nat)
    | Dispatch(process: nat, usage: nat)
    | Reply(process: nat)
    | Fail(process: nat)
    | Stop(process: nat)
    | Recover

  const FRESH := System(None, None, Missing, map[], {}, map[])

  function Move(s: System, p: nat, phase: Phase): map<nat, Process>
    requires p in s.processes
  {
    s.processes[p := s.processes[p].(phase := phase)]
  }

  /** `_read`: an absent file is an empty ledger under the caller's own limit; a ledger under another limit is refused. */
  function AfterLoad(ledger: Option<Ledger>, limit: int, job: Job): Phase {
    match ledger
    case None => Loaded(job, Ledger(limit, map[], {}))
    case Some(l) => if l.limit != limit then Releasing(Raised) else Loaded(job, l)
  }

  /** What `reserve` and `settle` make of the ledger they loaded; a new reservation takes the identifier given. */
  ghost function AfterDecide(job: Job, l: Ledger, id: nat): Phase {
    match job
    case Reserve(maximum) =>
      if Sum(l.charged) + maximum > l.limit then Releasing(Raised)
      else Writing(l.(charged := l.charged[id := maximum]), Granted(id, maximum))
    case Settle(attempt, tokens) =>
      if attempt !in l.charged then Releasing(Raised)
      else
        Writing(Ledger(l.limit, l.charged[attempt := tokens], l.measured + {attempt}),
                if tokens > l.charged[attempt] then Raised else Settled)
  }

  /** Only a reservation uses up an identifier. */
  function Issued(s: System, job: Job, id: nat): set<nat> {
    if job.Reserve? then s.issued + {id} else s.issued
  }

  function AfterRelease(outcome: Outcome): Phase {
    if outcome.Granted? then Reserved(outcome.attempt, outcome.maximum) else Idle
  }

  /** One atomic step of one process, or of whoever clears the lock of a stopped one; None when it cannot be taken. */
  ghost function Apply(s: System, a: Action): Option<System> {
    if a.Spawn? then
      if a.process in s.processes || a.limit <= 0 then None
      else Some(s.(processes := s.processes[a.process := Process(a.limit, Idle)]))
    else if a.Recover? then
      if s.lock.Some? && s.lock.value in s.processes && s.processes[s.lock.value].phase.Stopped?
      then Some(s.(lock := None)) else None
    else if a.process !in s.processes then None
    else ApplyTo(s, a.process, s.processes[a.process].phase, a)
  }

  ghost function ApplyTo(s: System, p: nat, phase: Phase, a: Action): Option<System>
    requires p in s.processes
  {
    match a
    case Start(_, maximum) =>
      if phase.Idle? then Some(s.(processes := Move(s, p, Waiting(Reserve(maximum))))) else None
    case Acquire(_) =>
      if phase.Waiting? && s.lock.None?
      then Some(s.(lock := Some(p), processes := Move(s, p, Holding(phase.job)))) else None
    case TimeOut(_) =>
      if phase.Waiting? && s.lock.Some? then Some(s.(processes := Move(s, p, Idle))) else None
    case Load(_) =>
      if phase.Holding?
      then Some(s.(processes := Move(s, p, AfterLoad(s.ledger, s.processes[p].limit, phase.job)))) else None
    case Decide(_, id) =>
      if !phase.Loaded? || id in s.issued then None
      else
        var next := AfterDecide(phase.job, phase.ledger, id);
        if next.Writing?
        then Some(s.(temporary := Partial, issued := Issued(s, phase.job, id), processes := Move(s, p, next)))
        else Some(s.(processes := Move(s, p, next)))
    case Flush(_) =>
      if phase.Writing?
      then Some(s.(temporary := Whole(phase.next), processes := Move(s, p, Written(phase.next, phase.outcome)))) else None
    case Replace(_) =>
      if phase.Written? && s.temporary.Whole?
      then Some(s.(ledger := Some(s.temporary.ledger), temporary := Missing,
                   processes := Move(s, p, Releasing(phase.outcome)))) else None
    case Abort(_) =>
      if phase.Locked() && !phase.Releasing? then Some(s.(processes := Move(s, p, Releasing(Raised)))) else None
    case Release(_) =>
      if phase.Releasing? then Some(s.(lock := None, processes := Move(s, p, AfterRelease(phase.outcome)))) else None
    case Dispatch(_, usage) =>
      if phase.Reserved?
      then Some(s.(used := s.used[phase.attempt := usage],
                   processes := Move(s, p, InFlight(phase.attempt, phase.maximum)))) else None
    case Reply(_) =>
      if phase.InFlight? && phase.attempt in s.used
      then Some(s.(processes := Move(s, p, Waiting(Settle(phase.attempt, s.used[phase.attempt]))))) else None
    case Fail(_) =>
      if phase.InFlight? then Some(s.(processes := Move(s, p, Idle))) else None
    case Stop(_) => Some(s.(processes := Move(s, p, Stopped)))
    case _ => None
  }

  ghost function Run(actions: seq<Action>): Option<System> {
    if actions == [] then Some(FRESH)
    else
      var before := Run(actions[..|actions| - 1]);
      if before.None? then None else Apply(before.value, actions[|actions| - 1])
  }

  /** The provider spends no more on a request than was reserved for it. */
  ghost predicate Within(s: System, a: Action) {
    a.Dispatch? && a.process in s.processes && s.processes[a.process].phase.Reserved? ==>
      a.usage <= s.processes[a.process].phase.maximum
  }

  /** Every reply of a run stays within its reservation. */
  ghost predicate AllWithin(actions: seq<Action>) {
    actions == [] ||
    (var before := actions[..|actions| - 1];
     AllWithin(before) && (Run(before).Some? ==> Within(Run(before).value, actions[|actions| - 1])))
  }

  // ---------------------------------------------------------------------
  // What every step keeps
  // ---------------------------------------------------------------------

  /** The attempt a process holds and has not dispatched yet. */
  function Undispatched(phase: Phase): Option<nat> {
    match phase
    case Writing(_, o) => if o.Granted? then Some(o.attempt) else None
    case Written(_, o) => if o.Granted? then Some(o.attempt) else None
    case Releasing(o) => if o.Granted? then Some(o.attempt) else None
    case Reserved(attempt, _) => Some(attempt)
    case _ => None
  }

  ghost predicate Charged(ledger: Option<Ledger>, attempt: nat, amount: nat) {
    ledger.Some? && attempt in ledger.value.charged && ledger.value.charged[attempt] == amount
  }

  /** A ledger that may be put in place of the present one: within its limit and covering everything spent. */
  ghost predicate Sound(l: Ledger, used: map<nat, nat>, issued: set<nat>) {
    && Sum(l.charged) <= l.limit
    && (forall k | k in used :: k in l.charged && used[k] <= l.charged[k])
    && (forall k | k in l.charged :: k in issued)
  }

  ghost predicate SoundFile(ledger: Option<Ledger>, used: map<nat, nat>, issued: set<nat>) {
    match ledger
    case None => used == map[]
    case Some(l) => Sound(l, used, issued)
  }

  /** `next` agrees with the present ledger except where the outcome says. */
  ghost predicate Changes(ledger: Option<Ledger>, next: Ledger, outcome: Outcome, used: map<nat, nat>) {
    && (forall k | ledger.Some? && k in ledger.value.charged && k !in used ::
          k in next.charged && next.charged[k] == ledger.value.charged[k])
    && (outcome.Granted? ==> Charged(Some(next), outcome.attempt, outcome.maximum) && outcome.attempt !in used)
  }

  ghost predicate GoodJob(job: Job, used: map<nat, nat>) {
    job.Settle? ==> job.attempt in used && used[job.attempt] == job.tokens
  }

  ghost predicate GoodPhase(s: System, limit: int, phase: Phase) {
    && (Undispatched(phase).Some? ==> Undispatched(phase).value in s.issued && Undispatched(phase).value !in s.used)
    && match phase
       case Waiting(job) => GoodJob(job, s.used)
       case Holding(job) => GoodJob(job, s.used)
       case Loaded(job, l) =>
         GoodJob(job, s.used) && (s.ledger == Some(l) || (s.ledger == None && l == Ledger(limit, map[], {}) && limit > 0))
       case Writing(next, o) => Sound(next, s.used, s.issued) && Changes(s.ledger, next, o, s.used)
       case Written(next, o) =>
         s.temporary == Whole(next) && Sound(next, s.used, s.issued) && Changes(s.ledger, next, o, s.used)
       case Releasing(o) => o.Granted? ==> Charged(s.ledger, o.attempt, o.maximum)
       case Reserved(attempt, maximum) => Charged(s.ledger, attempt, maximum)
       case InFlight(attempt, _) => attempt in s.used
       case _ => true
  }

  ghost predicate Exclusive(s: System) {
    && (forall p | p in s.processes && s.processes[p].phase.Locked() :: s.lock == Some(p))
    && forall p, q | p in s.processes && q in s.processes && p != q && Undispatched(s.processes[p].phase).Some? ::
         Undispatched(s.processes[p].phase) != Undispatched(s.processes[q].phase)
  }

  ghost predicate Inv(s: System) {
    && SoundFile(s.ledger, s.used, s.issued)
    && Exclusive(s)
    && forall p | p in s.processes :: s.processes[p].limit > 0 && GoodPhase(s, s.processes[p].limit, s.processes[p].phase)
  }

  /** A step that touches only the lock and where one process stands. */
  lemma QuietStep(s: System, p: nat, phase: Phase, lock: Option<nat>)
    requires Inv(s) && p in s.processes && GoodPhase(s, s.processes[p].limit, phase)
    requires phase.Locked() ==> lock == Some(p)
    requires lock == s.lock || (forall q | q in s.processes && q != p :: !s.processes[q].phase.Locked())
    requires Undispatched(phase) == None || Undispatched(phase) == Undispatched(s.processes[p].phase)
    ensures Inv(s.(lock := lock, processes := Move(s, p, phase)))
  {
    hide Undispatched, SoundFile, Sound, Changes, Charged, GoodJob;
    var t := s.(lock := lock, processes := Move(s, p, phase));
    forall q | q in t.processes
      ensures t.processes[q].limit > 0 && GoodPhase(t, t.processes[q].limit, t.processes[q].phase)
    {
      assert GoodPhase(s, t.processes[q].limit, t.processes[q].phase);
    }
  }

  lemma OnlyOneLocked(s: System, p: nat)
    requires Inv(s) && p in s.processes
    ensures s.processes[p].phase.Locked() ==> forall q | q in s.processes && q != p :: !s.processes[q].phase.Locked()
    ensures s.lock == None || (s.lock == Some(p) && !s.processes[p].phase.Locked()) ==>
              forall q | q in s.processes && q != p :: !s.processes[q].phase.Locked()
  {
    hide GoodPhase, SoundFile;
  }

  /** The new ledger a reservation or a settlement computes from a fresh read is sound. */
  lemma DecideIsSound(s: System, p: nat, id: nat)
    requires Inv(s) && p in s.processes && s.processes[p].phase.Loaded? && id !in s.issued
    ensures var phase := s.processes[p].phase;
            var next := AfterDecide(phase.job, phase.ledger, id);
            next.Writing? ==>
              && Sound(next.next, s.used, Issued(s, phase.job, id)) && Changes(s.ledger, next.next, next.outcome, s.used)
              && (next.outcome.Granted? ==> next.outcome.attempt == id && id !in s.used)
  {
    var phase := s.processes[p].phase;
    var l := phase.ledger;
    assert GoodPhase(s, s.processes[p].limit, phase);
    assert Sound(l, s.used, s.issued) by {
      assert Sum(map[]) == 0;
    }
    match phase.job
    case Reserve(maximum) =>
      SumUpdate(l.charged, id, maximum);
      assert id !in l.charged && id !in s.used;
    case Settle(attempt, tokens) =>
      SumUpdate(l.charged, attempt, tokens);
  }

  lemma DecideKeeps(s: System, p: nat, id: nat)
    requires Inv(s) && p in s.processes && s.processes[p].phase.Loaded? && id !in s.issued
    ensures Inv(ApplyTo(s, p, s.processes[p].phase, Decide(p, id)).value)
  {
    var phase := s.processes[p].phase;
    var next := AfterDecide(phase.job, phase.ledger, id);
    OnlyOneLocked(s, p);
    if next.Writing? {
      DecideIsSound(s, p, id);
      hide AfterDecide, Changes;
      var t := s.(temporary := Partial, issued := Issued(s, phase.job, id), processes := Move(s, p, next));
      forall q | q in t.processes
        ensures t.processes[q].limit > 0 && GoodPhase(t, t.processes[q].limit, t.processes[q].phase)
      {
        assert GoodPhase(s, s.processes[q].limit, s.processes[q].phase);
      }
      assert SoundFile(t.ledger, t.used, t.issued);
    } else {
      QuietStep(s, p, Releasing(Raised), s.lock);
    }
  }

  lemma FlushKeeps(s: System, p: nat)
    requires Inv(s) && p in s.processes && s.processes[p].phase.Writing?
    ensures Inv(ApplyTo(s, p, s.processes[p].phase, Flush(p)).value)
  {
    OnlyOneLocked(s, p);
    hide Sound, SoundFile, Changes, Charged;
    var phase := s.processes[p].phase;
    var t := s.(temporary := Whole(phase.next), processes := Move(s, p, Written(phase.next, phase.outcome)));
    forall q | q in t.processes
      ensures t.processes[q].limit > 0 && GoodPhase(t, t.processes[q].limit, t.processes[q].phase)
    {
      assert GoodPhase(s, s.processes[q].limit, s.processes[q].phase);
    }
  }

  lemma ReplaceKeeps(s: System, p: nat)
    requires Inv(s) && p in s.processes && s.processes[p].phase.Written?
    ensures s.temporary.Whole? && Inv(ApplyTo(s, p, s.processes[p].phase, Replace(p)).value)
  {
    OnlyOneLocked(s, p);
    var phase := s.processes[p].phase;
    assert GoodPhase(s, s.processes[p].limit, phase);
    hide Sound;
    var t := s.(ledger := Some(phase.next), temporary := Missing, processes := Move(s, p, Releasing(phase.outcome)));
    forall q | q in t.processes
      ensures t.processes[q].limit > 0 && GoodPhase(t, t.processes[q].limit, t.processes[q].phase)
    {
      assert GoodPhase(s, s.processes[q].limit, s.processes[q].phase);
    }
  }

  /** Spending on a reserved attempt stays covered, in the present ledger and in any about to replace it. */
  lemma SpendingIsCovered(ledger: Option<Ledger>, next: Ledger, o: Outcome, used: map<nat, nat>, issued: set<nat>,
                          attempt: nat, maximum: nat, usage: nat)
    requires Sound(next, used, issued) && Changes(ledger, next, o, used)
    requires Charged(ledger, attempt, maximum) && attempt !in used && usage <= maximum
    requires o.Granted? ==> o.attempt != attempt
    ensures Sound(next, used[attempt := usage], issued) && Changes(ledger, next, o, used[attempt := usage])
  {
    var after := used[attempt := usage];
    assert forall k | k in after :: k == attempt || k in used;
  }

  lemma DispatchKeepsPhase(s: System, p: nat, q: nat, usage: nat)
    requires Inv(s) && p in s.processes && s.processes[p].phase.Reserved? && usage <= s.processes[p].phase.maximum
    requires q in s.processes && q != p
    ensures GoodPhase(s.(used := s.used[s.processes[p].phase.attempt := usage]), s.processes[q].limit, s.processes[q].phase)
  {
    var Reserved(attempt, maximum) := s.processes[p].phase;
    var phase := s.processes[q].phase;
    assert GoodPhase(s, s.processes[p].limit, s.processes[p].phase);
    assert GoodPhase(s, s.processes[q].limit, phase);
    assert Undispatched(s.processes[p].phase) == Some(attempt);
    assert Undispatched(phase) != Some(attempt);
    hide Sound, Changes, Charged;
    if phase.Writing? || phase.Written? {
      SpendingIsCovered(s.ledger, phase.next, phase.outcome, s.used, s.issued, attempt, maximum, usage);
    }
  }

  lemma DispatchKeeps(s: System, p: nat, usage: nat)
    requires Inv(s) && p in s.processes && s.processes[p].phase.Reserved? && usage <= s.processes[p].phase.maximum
    ensures Inv(ApplyTo(s, p, s.processes[p].phase, Dispatch(p, usage)).value)
  {
    var Reserved(attempt, maximum) := s.processes[p].phase;
    assert GoodPhase(s, s.processes[p].limit, s.processes[p].phase);
    var spent := s.(used := s.used[attempt := usage]);
    assert SoundFile(spent.ledger, spent.used, spent.issued);
    var t := spent.(processes := Move(s, p, InFlight(attempt, maximum)));
    forall q | q in t.processes
      ensures t.processes[q].limit > 0 && GoodPhase(t, t.processes[q].limit, t.processes[q].phase)
    {
      if q != p {
        DispatchKeepsPhase(s, p, q, usage);
        assert GoodPhase(spent, s.processes[q].limit, s.processes[q].phase);
      }
    }
    hide GoodPhase, SoundFile;
    assert Exclusive(t);
  }

  lemma StepKeepsTheInvariant(s: System, a: Action)
    requires Inv(s) && Apply(s, a).Some? && Within(s, a)
    ensures Inv(Apply(s, a).value)
  {
    if a.Spawn? || a.Recover? {
      OthersKeep(s, a);
    } else {
      var p := a.process;
      OnlyOneLocked(s, p);
      var limit, phase := s.processes[p].limit, s.processes[p].phase;
      assert GoodPhase(s, limit, phase) && limit > 0;
      hide Inv, Sound, SoundFile, Changes, Charged;
      match a
      case Start(_, maximum) => QuietStep(s, p, Waiting(Reserve(maximum)), s.lock);
      case Acquire(_) => QuietStep(s, p, Holding(phase.job), Some(p));
      case TimeOut(_) => QuietStep(s, p, Idle, s.lock);
      case Load(_) => QuietStep(s, p, AfterLoad(s.ledger, limit, phase.job), s.lock);
      case Decide(_, id) => DecideKeeps(s, p, id);
      case Flush(_) => FlushKeeps(s, p);
      case Replace(_) => ReplaceKeeps(s, p);
      case Abort(_) => QuietStep(s, p, Releasing(Raised), s.lock);
      case Release(_) => QuietStep(s, p, AfterRelease(phase.outcome), None);
      case Dispatch(_, usage) => DispatchKeeps(s, p, usage);
      case Reply(_) => QuietStep(s, p, Waiting(Settle(phase.attempt, s.used[phase.attempt])), s.lock);
      case Fail(_) => QuietStep(s, p, Idle, s.lock);
      case Stop(_) => QuietStep(s, p, Stopped, s.lock);
      case _ =>
    }
  }

  lemma OthersKeep(s: System, a: Action)
    requires Inv(s) && (a.Spawn? || a.Recover?) && Apply(s, a).Some?
    ensures Inv(Apply(s, a).value)
  {
    hide Sound, SoundFile, Changes, Charged;
    var t := Apply(s, a).value;
    forall q | q in t.processes
      ensures t.processes[q].limit > 0 && GoodPhase(t, t.processes[q].limit, t.processes[q].phase)
    {
      assert q in s.processes ==> GoodPhase(s, s.processes[q].limit, s.processes[q].phase);
    }
  }

  lemma {:induction false} RunsKeepTheInvariant(actions: seq<Action>)
    requires Run(actions).Some? && AllWithin(actions)
    ensures Inv(Run(actions).value)
  {
    if actions == [] {
    } else {
      hide Apply, Inv, Within;
      RunsKeepTheInvariant(actions[..|actions| - 1]);
      StepKeepsTheInvariant(Run(actions[..|actions| - 1]).value, actions[|actions| - 1]);
    }
  }

  /**
    Over every interleaving of any number of processes, stopped and recovered anywhere: the total charged is within
    the limit and not below the tokens spent, attempt by attempt, while each reply stays within its reservation.
   */
  lemma LedgerStaysWithinItsLimit(actions: seq<Action>)
    requires Run(actions).Some? && AllWithin(actions)
    ensures var s := Run(actions).value;
            match s.ledger
            case None => s.used == map[]
            case Some(l) =>
              && Sum(s.used) <= Sum(l.charged) <= l.limit
              && forall k | k in s.used :: k in l.charged && s.used[k] <= l.charged[k]
  {
    hide Run;
    RunsKeepTheInvariant(actions);
    var s := Run(actions).value;
    if s.ledger.Some? {
      SumCovers(s.used, s.ledger.value.charged);
    }
  }

  // ---------------------------------------------------------------------
  // A process stopped while it holds the lock
  // ---------------------------------------------------------------------

  ghost predicate Blocked(s: System, p: nat) {
    s.lock == Some(p) && p in s.processes && s.processes[p].phase.Stopped?
  }

  lemma StoppedHolderBlocksStep(s: System, a: Action, p: nat)
    requires Inv(s) && Blocked(s, p) && !a.Recover? && Apply(s, a).Some?
    ensures Blocked(Apply(s, a).value, p) && Apply(s, a).value.ledger == s.ledger
  {
    hide GoodPhase, SoundFile, AfterDecide, AfterLoad;
    OnlyOneLocked(s, p);
    if !a.Spawn? {
      assert !s.processes[a.process].phase.Locked();
    }
  }

  ghost predicate NoRecovery(actions: seq<Action>) {
    forall i | 0 <= i < |actions| :: !actions[i].Recover?
  }

  /** Until someone clears its lock, nothing any process does changes the ledger. */
  lemma {:induction false} StoppedHolderBlocks(before: seq<Action>, more: seq<Action>, p: nat)
    requires Run(before).Some? && Blocked(Run(before).value, p)
    requires Run(before + more).Some? && AllWithin(before + more) && NoRecovery(more)
    ensures Blocked(Run(before + more).value, p) && Run(before + more).value.ledger == Run(before).value.ledger
    decreases |more|
  {
    hide Apply, Blocked, Within;
    if more == [] {
      assert before + more == before;
    } else {
      var all, fewer := before + more, more[..|more| - 1];
      assert all[..|all| - 1] == before + fewer;
      StoppedHolderBlocks(before, fewer, p);
      RunsKeepTheInvariant(before + fewer);
      StoppedHolderBlocksStep(Run(before + fewer).value, all[|all| - 1], p);
    }
  }

  // ---------------------------------------------------------------------
  // A reply past its reservation
  // ---------------------------------------------------------------------

  ghost predicate Reachable(s: System) {
    exists actions :: Run(actions) == Some(s)
  }

  lemma ReachableStep(s: System, a: Action, t: System)
    requires Reachable(s) && Apply(s, a) == Some(t)
    ensures Reachable(t)
  {
    hide Apply;
    var actions :| Run(actions) == Some(s);
    assert (actions + [a])[..|actions|] == actions;
    assert Run(actions + [a]) == Some(t);
  }

  /** One process, under a limit of 10. */
  function Solo(lock: Option<nat>, ledger: Option<Ledger>, temporary: Temporary, phase: Phase, issued: set<nat>,
                used: map<nat, nat>): System
  {
    System(lock, ledger, temporary, map[0 := Process(10, phase)], issued, used)
  }

  lemma SoloStep(s: System, a: Action, became: Phase, t: System)
    requires Reachable(s) && s.processes.Keys == {0} && s.processes[0].limit == 10
    requires t.processes == map[0 := Process(10, became)]
    requires Apply(s, a) == Some(t.(processes := Move(s, 0, became)))
    ensures Reachable(t)
  {
    hide Apply;
    assert Move(s, 0, became) == t.processes;
    ReachableStep(s, a, t);
  }

  const BLANK := Ledger(10, map[], {})
  const FOUR := Ledger(10, map[0 := 4], {})
  const ELEVEN := Ledger(10, map[0 := 11], {0})
  const SPENT: map<nat, nat> := map[0 := 11]

  lemma Sums()
    ensures Sum(map[]) == 0 && Sum(FOUR.charged) == 4 && Sum(ELEVEN.charged) == 11
    ensures BLANK.charged[0 := 4] == FOUR.charged && FOUR.charged[0 := 11] == ELEVEN.charged
    ensures {} + {0} == {0} && FOUR.measured + {0} == ELEVEN.measured
  {
    var none: map<nat, nat> := map[];
    SumUpdate(none, 0, 4);
    SumUpdate(none, 0, 11);
    assert none[0 := 4] == FOUR.charged && none[0 := 11] == ELEVEN.charged;
  }

  lemma LoneProcessLoads()
    ensures Reachable(Solo(Some(0), None, Missing, Loaded(Reserve(4), BLANK), {}, map[]))
  {
    hide Sum, AfterDecide;
    assert Run([]) == Some(FRESH);
    var s0 := Solo(None, None, Missing, Idle, {}, map[]);
    ReachableStep(FRESH, Spawn(0, 10), s0);
    var s1 := Solo(None, None, Missing, Waiting(Reserve(4)), {}, map[]);
    SoloStep(s0, Start(0, 4), Waiting(Reserve(4)), s1);
    var s2 := Solo(Some(0), None, Missing, Holding(Reserve(4)), {}, map[]);
    SoloStep(s1, Acquire(0), Holding(Reserve(4)), s2);
    var s3 := Solo(Some(0), None, Missing, Loaded(Reserve(4), BLANK), {}, map[]);
    SoloStep(s2, Load(0), Loaded(Reserve(4), BLANK), s3);
  }

  lemma LoneProcessReserves()
    ensures Reachable(Solo(None, Some(FOUR), Missing, Reserved(0, 4), {0}, map[]))
  {
    LoneProcessLoads();
    Sums();
    hide Sum, Reachable;
    var s3 := Solo(Some(0), None, Missing, Loaded(Reserve(4), BLANK), {}, map[]);
    var s4 := Solo(Some(0), None, Partial, Writing(FOUR, Granted(0, 4)), {0}, map[]);
    SoloStep(s3, Decide(0, 0), Writing(FOUR, Granted(0, 4)), s4);
    var s5 := Solo(Some(0), None, Whole(FOUR), Written(FOUR, Granted(0, 4)), {0}, map[]);
    SoloStep(s4, Flush(0), Written(FOUR, Granted(0, 4)), s5);
    var s6 := Solo(Some(0), Some(FOUR), Missing, Releasing(Granted(0, 4)), {0}, map[]);
    SoloStep(s5, Replace(0), Releasing(Granted(0, 4)), s6);
    var s7 := Solo(None, Some(FOUR), Missing, Reserved(0, 4), {0}, map[]);
    SoloStep(s6, Release(0), Reserved(0, 4), s7);
  }

  lemma LoneProcessOverruns()
    ensures Reachable(Solo(Some(0), Some(FOUR), Missing, Loaded(Settle(0, 11), FOUR), {0}, SPENT))
  {
    LoneProcessReserves();
    hide Sum, Reachable;
    var s7 := Solo(None, Some(FOUR), Missing, Reserved(0, 4), {0}, map[]);
    var s8 := Solo(None, Some(FOUR), Missing, InFlight(0, 4), {0}, SPENT);
    SoloStep(s7, Dispatch(0, 11), InFlight(0, 4), s8);
    var s9 := Solo(None, Some(FOUR), Missing, Waiting(Settle(0, 11)), {0}, SPENT);
    SoloStep(s8, Reply(0), Waiting(Settle(0, 11)), s9);
    var s10 := Solo(Some(0), Some(FOUR), Missing, Holding(Settle(0, 11)), {0}, SPENT);
    SoloStep(s9, Acquire(0), Holding(Settle(0, 11)), s10);
    var s11 := Solo(Some(0), Some(FOUR), Missing, Loaded(Settle(0, 11), FOUR), {0}, SPENT);
    SoloStep(s10, Load(0), Loaded(Settle(0, 11), FOUR), s11);
  }

  /**
    The hypothesis is needed: under a limit of 10 a process reserves 4, the provider spends 11, and settling leaves
    the ledger past its limit.
   */
  lemma OverrunPassesTheLimit()
    ensures Reachable(Solo(Some(0), Some(ELEVEN), Missing, Releasing(Raised), {0}, SPENT))
    ensures Sum(ELEVEN.charged) > ELEVEN.limit
  {
    LoneProcessOverruns();
    Sums();
    hide Sum, Reachable;
    var s11 := Solo(Some(0), Some(FOUR), Missing, Loaded(Settle(0, 11), FOUR), {0}, SPENT);
    var s12 := Solo(Some(0), Some(FOUR), Partial, Writing(ELEVEN, Raised), {0}, SPENT);
    SoloStep(s11, Decide(0, 1), Writing(ELEVEN, Raised), s12);
    var s13 := Solo(Some(0), Some(FOUR), Whole(ELEVEN), Written(ELEVEN, Raised), {0}, SPENT);
    SoloStep(s12, Flush(0), Written(ELEVEN, Raised), s13);
    var s14 := Solo(Some(0), Some(ELEVEN), Missing, Releasing(Raised), {0}, SPENT);
    SoloStep(s13, Replace(0), Releasing(Raised), s14);
  }

  /**
    Settling replaces one charge by what was measured, so the total passes the limit exactly when the reply overran
    its reservation by more than the room left; and it raises on any overrun.
   */
  lemma SettlingIsExact(job: Job, l: Ledger, id: nat)
    requires job.Settle? && job.attempt in l.charged
    ensures var next := AfterDecide(job, l, id);
            && next.Writing?
            && (Sum(next.next.charged) > l.limit <==> job.tokens - l.charged[job.attempt] > l.limit - Sum(l.charged))
            && (next.outcome == Raised <==> job.tokens > l.charged[job.attempt])
  {
    SumUpdate(l.charged, job.attempt, job.tokens);
  }

  // ---------------------------------------------------------------------
  // One locked call with nothing in between
  // ---------------------------------------------------------------------

  /** The ledger file a whole locked call leaves, and its outcome. */
  ghost function AfterCall(file: Option<Ledger>, limit: int, job: Job, id: nat): (Option<Ledger>, Outcome) {
    match AfterLoad(file, limit, job)
    case Loaded(_, l) =>
      (match AfterDecide(job, l, id)
       case Writing(next, outcome) => (Some(next), outcome)
       case _ => (file, Raised))
    case _ => (file, Raised)
  }

  /** Steps taken one after another from a state. */
  ghost function Chain(s: System, actions: seq<Action>): Option<System>
    decreases actions
  {
    if actions == [] then Some(s)
    else
      var next := Apply(s, actions[0]);
      if next.None? then None else Chain(next.value, actions[1..])
  }

  lemma {:induction false} Chained(s: System, actions: seq<Action>, t: System, a: Action)
    requires Chain(s, actions) == Some(t)
    ensures Chain(s, actions + [a]) == Apply(t, a)
    decreases actions
  {
    hide Apply;
    if actions == [] {
      assert (actions + [a])[1..] == [];
    } else {
      assert (actions + [a])[1..] == actions[1..] + [a];
      Chained(Apply(s, actions[0]).value, actions[1..], t, a);
    }
  }

  /** One more step of a process in a chain of its own steps. */
  lemma Steps(s: System, actions: seq<Action>, t: System, p: nat, a: Action, phase: Phase, u: System) returns (more: seq<Action>)
    requires p in s.processes && p in t.processes && Chain(s, actions) == Some(t) && t.processes == Move(s, p, t.processes[p].phase)
    requires Apply(t, a) == Some(u.(processes := Move(t, p, phase))) && u.processes == Move(s, p, phase)
    ensures more == actions + [a] && Chain(s, more) == Some(u)
  {
    hide Apply, Chain;
    more := actions + [a];
    Chained(s, actions, t, a);
    assert Move(t, p, phase) == u.processes;
  }

  /** Acquiring the lock, reading, deciding, writing, replacing and releasing, with no step of anyone else between. */
  lemma UninterruptedCall(s: System, p: nat, id: nat) returns (actions: seq<Action>)
    requires p in s.processes && s.processes[p].phase.Waiting? && s.lock == None && id !in s.issued
    ensures var t := Chain(s, actions);
            var (file, outcome) := AfterCall(s.ledger, s.processes[p].limit, s.processes[p].phase.job, id);
            && t.Some? && t.value.ledger == file && t.value.lock == None && p in t.value.processes
            && t.value.processes[p].phase == AfterRelease(outcome)
  {
    var limit, job := s.processes[p].limit, s.processes[p].phase.job;
    assert s.processes == Move(s, p, s.processes[p].phase);
    var t := s.(lock := Some(p), processes := Move(s, p, Holding(job)));
    actions := Steps(s, [], s, p, Acquire(p), Holding(job), t);
    var loaded := AfterLoad(s.ledger, limit, job);
    var u := t.(processes := Move(s, p, loaded));
    actions := Steps(s, actions, t, p, Load(p), loaded, u);
    var outcome := Raised;
    if loaded.Loaded? {
      actions, u, outcome := DecidedCall(s, p, id, actions, u, job, loaded.ledger);
    }
    var v := u.(lock := None, processes := Move(s, p, AfterRelease(outcome)));
    hide AfterLoad, AfterDecide, Chain;
    actions := Steps(s, actions, u, p, Release(p), AfterRelease(outcome), v);
  }

  lemma DecidedCall(s: System, p: nat, id: nat, before: seq<Action>, t: System, job: Job, l: Ledger)
    returns (actions: seq<Action>, u: System, outcome: Outcome)
    requires p in s.processes && id !in s.issued && t.issued == s.issued
    requires Chain(s, before) == Some(t) && t.processes == Move(s, p, Loaded(job, l))
    ensures Chain(s, actions) == Some(u) && u.lock == t.lock && u.processes == Move(s, p, Releasing(outcome))
    ensures match AfterDecide(job, l, id)
            case Writing(next, o) => u.ledger == Some(next) && outcome == o
            case _ => u.ledger == t.ledger && outcome == Raised
  {
    var decided := AfterDecide(job, l, id);
    if decided.Writing? {
      var next := decided.next;
      outcome := decided.outcome;
      var writing := t.(temporary := Partial, issued := Issued(t, job, id), processes := Move(s, p, decided));
      actions := Steps(s, before, t, p, Decide(p, id), decided, writing);
      hide AfterDecide, Chain;
      var written := writing.(temporary := Whole(next), processes := Move(s, p, Written(next, outcome)));
      actions := Steps(s, actions, writing, p, Flush(p), Written(next, outcome), written);
      u := written.(ledger := Some(next), temporary := Missing, processes := Move(s, p, Releasing(outcome)));
      actions := Steps(s, actions, written, p, Replace(p), Releasing(outcome), u);
    } else {
      outcome := Raised;
      u := t.(processes := Move(s, p, decided));
      actions := Steps(s, before, t, p, Decide(p, id), decided, u);
    }
  }

  datatype Error = LimitDiffers | BudgetExceeded | UnknownAttempt

  /** `AggregateBudget` between making the lock directory and removing it: `file` is the ledger it reads and replaces. */
  class AggregateBudget {
    const limit: int
    var file: Option<Ledger>

    constructor (limit: int, file: Option<Ledger>)
      requires limit > 0
      ensures this.limit == limit && this.file == file
    {
      this.limit := limit;
      this.file := file;
    }

    method Read() returns (r: Result<Ledger, Error>)
      ensures match AfterLoad(file, limit, Job.Reserve(0))
              case Loaded(_, l) => r == Ok(l)
              case _ => r == Err(LimitDiffers)
      ensures r.Ok? ==> r.value.limit == limit
    {
      if file.None? {
        return Ok(Ledger(limit, map[], {}));
      }
      if file.value.limit != limit {
        return Err(LimitDiffers);
      }
      return Ok(file.value);
    }

    /** The total charged, entry by entry in whatever order. */
    method Used(l: Ledger) returns (used: nat)
      ensures used == Sum(l.charged)
    {
      used := 0;
      var left := l.charged;
      while left != map[]
        invariant used + Sum(left) == Sum(l.charged)
        decreases |left|
      {
        var k :| k in left;
        SumWithout(left, k);
        used, left := used + left[k], left - {k};
      }
    }

    /** A reservation is granted exactly when it fits, and then adds its maximum and changes no other charge. */
    method Reserve(maximum: nat, id: nat) returns (r: Result<nat, Error>)
      requires file.Some? ==> id !in file.value.charged
      modifies this`file
      ensures var (after, outcome) := AfterCall(old(file), limit, Job.Reserve(maximum), id);
              file == after && (r.Ok? <==> outcome == Granted(id, maximum))
      ensures match old(AfterLoad(file, limit, Job.Reserve(maximum)))
              case Loaded(job, l) =>
                && (r.Ok? <==> Sum(l.charged) + maximum <= limit)
                && (r.Ok? ==>
                      && r.value == id && file == Some(AfterDecide(job, l, id).next)
                      && Sum(file.value.charged) == Sum(l.charged) + maximum <= limit)
                && (r.Err? ==> r.error == BudgetExceeded && file == old(file))
              case _ => r == Err(LimitDiffers) && file == old(file)
    {
      var state := Read();
      if state.Err? {
        return Err(state.error);
      }
      var l := state.value;
      var used := Used(l);
      if used + maximum > limit {
        return Err(BudgetExceeded);
      }
      SumUpdate(l.charged, id, maximum);
      file := Some(l.(charged := l.charged[id := maximum]));
      return Ok(id);
    }

    /** Settling writes the measured charge first and complains of an overrun after. */
    method Settle(attempt: nat, tokens: nat) returns (r: Result<(), Error>)
      modifies this`file
      ensures var (after, outcome) := AfterCall(old(file), limit, Job.Settle(attempt, tokens), 0);
              file == after && (r.Ok? <==> outcome == Settled)
      ensures match old(AfterLoad(file, limit, Job.Settle(attempt, tokens)))
              case Loaded(job, l) =>
                if attempt in l.charged then
                  && file == Some(AfterDecide(job, l, 0).next)
                  && Sum(file.value.charged) == Sum(l.charged) - l.charged[attempt] + tokens
                  && r == if tokens > l.charged[attempt] then Err(BudgetExceeded) else Ok(())
                else r == Err(UnknownAttempt) && file == old(file)
              case _ => r == Err(LimitDiffers) && file == old(file)
    {
      var state := Read();
      if state.Err? {
        return Err(state.error);
      }
      var l := state.value;
      if attempt !in l.charged {
        return Err(UnknownAttempt);
      }
      var ceiling := l.charged[attempt];
      SumUpdate(l.charged, attempt, tokens);
      file := Some(Ledger(l.limit, l.charged[attempt := tokens], l.measured + {attempt}));
      if tokens > ceiling {
        return Err(BudgetExceeded);
      }
      return Ok(());
    }
  }
}
