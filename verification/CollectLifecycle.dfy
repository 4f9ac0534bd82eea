/**
 All interleavings of nvdebug collections, each claiming an output directory and owning a
 private directory with the DUT file. Work handed to the blocking pool goes on when the
 collection's future is dropped; a drop may come at any await point.
 */
module CollectLifecycle {
  import opened Text

  type RunId = nat
  type OutDir = nat

  /** What the blocking pool still does for a future that was dropped. */
  datatype Orphan = Nothing | LateLock | HeldLock | LateCreate | HeldTemp

  datatype Phase =
    | Start
    | Claiming           // the claim waits for a pool thread
    | Locked             // locked, checking for an earlier run
    | Claimed            // the check passed; the future has not resumed yet
    | ClaimFailed
    | Creating           // the private directory waits for a pool thread
    | Made               // made, still owned by its guard in the pool's result
    | MakeFailed
    | Writing            // owned by a DutDir, the DUT file is being written
    | Starting           // nvdebug is about to be started
    | Running            // nvdebug was started and is waited for
    | Removing           // the path was taken and its removal started
    | Removed            // that removal was awaited
    | Returned
    | Dropped(orphan: Orphan)

  /** `removals` counts the removals started of each run's private directory, `settled` has the runs
      whose removal has ended, `writers` the runs whose nvdebug or a helper of it lives, and `logs` the
      output it left. No step of a run waits for its writers to end: a kill may come late, and helpers
      outside the process group get none. */
  datatype State = State(
    locks: map<OutDir, RunId>,
    phase: map<RunId, Phase>,
    created: set<RunId>,
    removals: multiset<RunId>,
    settled: set<RunId>,
    writers: set<RunId>,
    logs: set<(OutDir, RunId)>)

  /** The output directory each run asks for. */
  type Config = map<RunId, OutDir>

  datatype Action =
    | Begin(r: RunId)
    | TryLock(r: RunId)
    | ClaimError(r: RunId)
    | Scan(r: RunId)
    | Resume(r: RunId)
    | MakeDir(r: RunId)
    | MakeDirError(r: RunId)
    | DropTemp(r: RunId)
    | Wrote(r: RunId)
    | Spawn(r: RunId)
    | Log(r: RunId)
    | Exit(r: RunId)         // the last process of the run's nvdebug ends
    | Finish(r: RunId)       // a failed write or start, or nvdebug exited, timed out or was cancelled
    | RemovalEnds(r: RunId)
    | Drop(r: RunId)

  function Init(cfg: Config): State {
    State(map[], map r | r in cfg :: Start, {}, multiset{}, {}, {}, {})
  }

  predicate HasLogs(s: State, d: OutDir) {
    exists x | x in s.logs :: x.0 == d
  }

  predicate InFlight(p: Phase) {
    !p.Returned? && !p.Dropped?
  }

  predicate Enabled(cfg: Config, s: State, a: Action) {
    && a.r in cfg && a.r in s.phase
    && var p := s.phase[a.r];
       match a
       case Begin(_) => p.Start?
       case TryLock(_) => p.Claiming? || p == Dropped(LateLock)
       case ClaimError(_) => p.Claiming? || p.Locked?
       case Scan(_) => p.Locked? || p == Dropped(HeldLock)
       case Resume(_) => p.Claimed? || p.ClaimFailed? || p.Made? || p.MakeFailed? || p.Removed?
       case MakeDir(_) => p.Creating? || p == Dropped(LateCreate)
       case MakeDirError(_) => p.Creating? || p == Dropped(LateCreate)
       case DropTemp(_) => p == Dropped(HeldTemp)
       case Wrote(_) => p.Writing?
       case Spawn(_) => p.Starting?
       case Log(_) => a.r in s.writers
       case Exit(_) => a.r in s.writers
       case Finish(_) => p.Writing? || p.Starting? || p.Running?
       case RemovalEnds(_) => p.Removing? || (p.Dropped? && s.removals[a.r] > 0)
       case Drop(_) => InFlight(p)
  }

  function NextPhase(cfg: Config, s: State, a: Action): Phase
    requires Enabled(cfg, s, a)
  {
    var p := s.phase[a.r];
    var free := cfg[a.r] !in s.locks;
    match a
    case Begin(_) => Claiming
    case TryLock(_) =>
      if p.Claiming? then (if free then Locked else ClaimFailed)
      else Dropped(if free then HeldLock else Nothing)
    case ClaimError(_) => ClaimFailed
    case Scan(_) =>
      if p.Dropped? then Dropped(Nothing) else if HasLogs(s, cfg[a.r]) then ClaimFailed else Claimed
    case Resume(_) => if p.Claimed? then Creating else if p.Made? then Writing else Returned
    case MakeDir(_) => if p.Creating? then Made else Dropped(HeldTemp)
    case MakeDirError(_) => if p.Creating? then MakeFailed else Dropped(Nothing)
    case DropTemp(_) => Dropped(Nothing)
    case Wrote(_) => Starting
    case Spawn(_) => Running
    case Log(_) => p
    case Exit(_) => p
    case Finish(_) => Removing
    case RemovalEnds(_) => if p.Removing? then Removed else p
    case Drop(_) =>
      Dropped(match p
              case Claiming => LateLock
              case Locked => HeldLock
              case Creating => LateCreate
              case Made => HeldTemp
              case _ => Nothing)
  }

  /** Phases in which the lock on the output directory is held for this run. */
  predicate Holds(p: Phase) {
    p.Locked? || p.Claimed? || PastClaim(p) || p == Dropped(HeldLock)
  }

  /** Phases after the claim returned and before it is released. */
  predicate PastClaim(p: Phase) {
    p.Creating? || p.Made? || p.MakeFailed? || p.Writing? || p.Starting? || p.Running? || p.Removing? || p.Removed?
  }

  /** The lock is taken by the claim and released when the file is closed. */
  function NextLocks(cfg: Config, s: State, a: Action): map<OutDir, RunId>
    requires Enabled(cfg, s, a)
  {
    var before := Holds(s.phase[a.r]);
    var after := Holds(NextPhase(cfg, s, a));
    if !before && after then s.locks[cfg[a.r] := a.r]
    else if before && !after then s.locks - {cfg[a.r]}
    else s.locks
  }

  /** `remove`, a dropped `DutDir` and a dropped guard each start one removal. */
  function NextRemovals(cfg: Config, s: State, a: Action): multiset<RunId>
    requires Enabled(cfg, s, a)
  {
    var p := s.phase[a.r];
    if a.Finish? || a.DropTemp? || (a.Drop? && (p.Writing? || p.Starting? || p.Running?))
    then s.removals + multiset{a.r}
    else s.removals
  }

  function NextWriters(s: State, a: Action): set<RunId> {
    match a
    case Spawn(r) => s.writers + {r}
    case Exit(r) => s.writers - {r}
    case _ => s.writers
  }

  function Do(cfg: Config, s: State, a: Action): State
    requires Enabled(cfg, s, a)
  {
    State(NextLocks(cfg, s, a),
          s.phase[a.r := NextPhase(cfg, s, a)],
          if a.MakeDir? then s.created + {a.r} else s.created,
          NextRemovals(cfg, s, a),
          if a.DropTemp? || a.RemovalEnds? then s.settled + {a.r} else s.settled,
          NextWriters(s, a),
          if a.Log? then s.logs + {(cfg[a.r], a.r)} else s.logs)
  }

  /** This step gives the claim up while the run's nvdebug lives and has left nothing yet. */
  predicate Orphans(cfg: Config, s: State, a: Action)
    requires Enabled(cfg, s, a)
  {
    && Holds(s.phase[a.r]) && !Holds(NextPhase(cfg, s, a))
    && a.r in s.writers && (cfg[a.r], a.r) !in s.logs
  }

  /** Only the runs in `loose` are ever stopped so. */
  predicate Allowed(cfg: Config, loose: set<RunId>, s: State, a: Action) {
    Enabled(cfg, s, a) && (Orphans(cfg, s, a) ==> a.r in loose)
  }

  /** The state after a schedule, or `None` when the schedule takes a step that is not possible. */
  function Exec(cfg: Config, loose: set<RunId>, s: State, schedule: seq<Action>): Option<State>
    decreases |schedule|
  {
    if schedule == [] then Some(s)
    else if Allowed(cfg, loose, s, schedule[0]) then Exec(cfg, loose, Do(cfg, s, schedule[0]), schedule[1..])
    else None
  }

  /** With every run in `loose` these are all interleavings. */
  ghost predicate Reached(cfg: Config, loose: set<RunId>, s: State) {
    exists schedule :: Exec(cfg, loose, Init(cfg), schedule) == Some(s)
  }

  // ---- Invariants ---------------------------------------------------------------------------

  /** A directory is locked for a run exactly while that run is in a phase that holds the lock. */
  ghost predicate LocksMatch(cfg: Config, s: State) {
    && s.phase.Keys == cfg.Keys
    && (forall r | r in cfg :: Holds(s.phase[r]) <==> cfg[r] in s.locks && s.locks[cfg[r]] == r)
    && (forall d | d in s.locks :: s.locks[d] in cfg && cfg[s.locks[d]] == d)
  }

  /** The directory exists and nothing has started to remove it. */
  predicate Keeps(p: Phase) {
    p.Made? || p.Writing? || p.Starting? || p.Running? || p == Dropped(HeldTemp)
  }

  /** The directory was never made. */
  predicate NeverMade(p: Phase) {
    p.Start? || p.Claiming? || p.Locked? || p.Claimed? || p.ClaimFailed? || p.Creating? || p.MakeFailed?
    || p == Dropped(LateLock) || p == Dropped(HeldLock) || p == Dropped(LateCreate)
  }

  /** The books on one run's private directory. */
  ghost predicate DirBooked(s: State, r: RunId)
    requires r in s.phase
  {
    var p := s.phase[r];
    && (Keeps(p) ==> r in s.created && s.removals[r] == 0)
    && (NeverMade(p) ==> r !in s.created && s.removals[r] == 0)
    && (!Keeps(p) && !NeverMade(p) ==> s.removals[r] == if r in s.created then 1 else 0)
    && ((p.Removing? || p.Removed?) ==> r in s.created)
    && ((p.Removed? || p.Returned?) && r in s.created ==> r in s.settled)
    && (r in s.settled ==> s.removals[r] == 1)
  }

  /** Phases in which the run found the output directory without an earlier run's logs. */
  predicate Checked(p: Phase) {
    p.Claimed? || PastClaim(p)
  }

  /** Processes and logs belong to runs that started them; a process outlives only a run past its start. */
  ghost predicate WritersKnown(cfg: Config, s: State) {
    && (forall r | r in s.writers :: r in s.phase
          && (s.phase[r].Running? || s.phase[r].Removing? || s.phase[r].Removed? || s.phase[r].Returned?
              || s.phase[r] == Dropped(Nothing)))
    && (forall x | x in s.logs :: x.1 in cfg && cfg[x.1] == x.0)
  }

  // ---- Runs whose process may outlive them --------------------------------------------------

  /** No loose run shares its output directory. */
  ghost predicate LooseAlone(cfg: Config, loose: set<RunId>) {
    forall r, q | r in loose && r in cfg && q in cfg && cfg[r] == cfg[q] :: r == q
  }

  /** No output directory holds the logs of two runs. */
  ghost predicate Apart(s: State) {
    forall x, y | x in s.logs && y in s.logs && x.0 == y.0 :: x == y
  }

  /** A run that passed the check has the directory's logs to itself. */
  ghost predicate ChecksHold(cfg: Config, s: State) {
    forall x, r | x in s.logs && r in s.phase && r in cfg && Checked(s.phase[r]) && x.0 == cfg[r] :: x.1 == r
  }

  /** Whoever writes without the lock, and is not loose, has left a log before. */
  ghost predicate OrphansLogged(cfg: Config, loose: set<RunId>, s: State) {
    forall r | r in s.writers && r in s.phase && r in cfg && r !in loose && !Holds(s.phase[r]) :: (cfg[r], r) in s.logs
  }

  ghost predicate LogsAlone(cfg: Config, loose: set<RunId>, s: State) {
    Apart(s) && ChecksHold(cfg, s) && OrphansLogged(cfg, loose, s)
  }

  lemma LocksMatchStep(cfg: Config, s: State, a: Action)
    requires LocksMatch(cfg, s) && Enabled(cfg, s, a)
    ensures LocksMatch(cfg, Do(cfg, s, a))
  {
    var s' := Do(cfg, s, a);
    var before, after := Holds(s.phase[a.r]), Holds(s'.phase[a.r]);
    if !before && after {
      assert cfg[a.r] !in s.locks;
    }
    forall r | r in cfg ensures Holds(s'.phase[r]) <==> cfg[r] in s'.locks && s'.locks[cfg[r]] == r {
      if r != a.r {
        assert s'.phase[r] == s.phase[r];
      }
    }
  }

  lemma DirBookedStep(cfg: Config, s: State, a: Action, r: RunId)
    requires Enabled(cfg, s, a) && r in s.phase && DirBooked(s, r)
    ensures DirBooked(Do(cfg, s, a), r)
  {
  }

  lemma WritersKnownStep(cfg: Config, s: State, a: Action)
    requires WritersKnown(cfg, s) && Enabled(cfg, s, a)
    ensures WritersKnown(cfg, Do(cfg, s, a))
  {
  }

  lemma LogsAloneStep(cfg: Config, loose: set<RunId>, s: State, a: Action)
    requires LooseAlone(cfg, loose) && LocksMatch(cfg, s) && WritersKnown(cfg, s) && LogsAlone(cfg, loose, s)
    requires Allowed(cfg, loose, s, a)
    ensures LogsAlone(cfg, loose, Do(cfg, s, a))
  {
    if a.Log? && (cfg[a.r], a.r) !in s.logs {
      FirstLogIsAlone(cfg, loose, s, a.r);
    }
    ApartStep(cfg, s, a);
    ChecksHoldStep(cfg, loose, s, a);
    OrphansLoggedStep(cfg, loose, s, a);
  }

  lemma ApartStep(cfg: Config, s: State, a: Action)
    requires Apart(s) && Enabled(cfg, s, a)
    requires a.Log? && (cfg[a.r], a.r) !in s.logs ==> !HasLogs(s, cfg[a.r])
    ensures Apart(Do(cfg, s, a))
  {
    assert Do(cfg, s, a).logs <= s.logs + {(cfg[a.r], a.r)};
  }

  lemma ChecksHoldStep(cfg: Config, loose: set<RunId>, s: State, a: Action)
    requires LooseAlone(cfg, loose) && LocksMatch(cfg, s) && LogsAlone(cfg, loose, s) && Enabled(cfg, s, a)
    ensures ChecksHold(cfg, Do(cfg, s, a))
  {
    var s' := Do(cfg, s, a);
    forall x, r | x in s'.logs && r in s'.phase && r in cfg && Checked(s'.phase[r]) && x.0 == cfg[r]
      ensures x.1 == r
    {
      if x in s.logs {
        OldLogOwner(cfg, s, a, x, r);
      } else {
        NewLogOwner(cfg, loose, s, a, r);
      }
    }
  }

  lemma OrphansLoggedStep(cfg: Config, loose: set<RunId>, s: State, a: Action)
    requires OrphansLogged(cfg, loose, s) && Allowed(cfg, loose, s, a)
    ensures OrphansLogged(cfg, loose, Do(cfg, s, a))
  {
    var s' := Do(cfg, s, a);
    forall r | r in s'.writers && r in s'.phase && r in cfg && r !in loose && !Holds(s'.phase[r])
      ensures (cfg[r], r) in s'.logs
    {
      assert r == a.r || s'.phase[r] == s.phase[r];
    }
  }

  /** The first log of a run goes to a directory without logs. */
  lemma FirstLogIsAlone(cfg: Config, loose: set<RunId>, s: State, r: RunId)
    requires LooseAlone(cfg, loose) && WritersKnown(cfg, s) && LogsAlone(cfg, loose, s)
    requires r in s.writers && r in cfg && (cfg[r], r) !in s.logs
    ensures !HasLogs(s, cfg[r])
  {
    assert r in loose || Checked(s.phase[r]);
  }

  /** A run that passes the check sees no logs, and keeps the directory free of another's. */
  lemma OldLogOwner(cfg: Config, s: State, a: Action, x: (OutDir, RunId), r: RunId)
    requires ChecksHold(cfg, s) && Enabled(cfg, s, a) && r in s.phase && r in cfg
    requires x in s.logs && x.0 == cfg[r] && Checked(if r == a.r then NextPhase(cfg, s, a) else s.phase[r])
    ensures x.1 == r
  {
  }

  /** A log that is new is the holder's, or that of a run alone on its directory. */
  lemma NewLogOwner(cfg: Config, loose: set<RunId>, s: State, a: Action, r: RunId)
    requires LooseAlone(cfg, loose) && LocksMatch(cfg, s) && LogsAlone(cfg, loose, s)
    requires Enabled(cfg, s, a) && a.Log? && (cfg[a.r], a.r) !in s.logs
    requires r in s.phase && r in cfg && Checked(s.phase[r]) && cfg[r] == cfg[a.r]
    ensures r == a.r
  {
    if a.r !in loose {
      assert Holds(s.phase[a.r]) && Holds(s.phase[r]);
    }
  }

  ghost predicate Inv(cfg: Config, s: State) {
    LocksMatch(cfg, s) && WritersKnown(cfg, s) && forall r | r in s.phase :: DirBooked(s, r)
  }

  lemma InvStep(cfg: Config, s: State, a: Action)
    requires Inv(cfg, s) && Enabled(cfg, s, a)
    ensures Inv(cfg, Do(cfg, s, a))
  {
    var s' := Do(cfg, s, a);
    LocksMatchStep(cfg, s, a);
    WritersKnownStep(cfg, s, a);
    forall r | r in s'.phase ensures DirBooked(s', r) {
      DirBookedStep(cfg, s, a, r);
    }
  }

  lemma {:induction false} InvExec(cfg: Config, loose: set<RunId>, s: State, schedule: seq<Action>)
    requires Inv(cfg, s)
    ensures var end := Exec(cfg, loose, s, schedule); end.Some? ==> Inv(cfg, end.value)
    decreases |schedule|
  {
    if schedule != [] && Allowed(cfg, loose, s, schedule[0]) {
      InvStep(cfg, s, schedule[0]);
      InvExec(cfg, loose, Do(cfg, s, schedule[0]), schedule[1..]);
    }
  }

  lemma {:induction false} ApartExec(cfg: Config, loose: set<RunId>, s: State, schedule: seq<Action>)
    requires LooseAlone(cfg, loose) && Inv(cfg, s) && LogsAlone(cfg, loose, s)
    ensures var end := Exec(cfg, loose, s, schedule); end.Some? ==> Apart(end.value)
    decreases |schedule|
  {
    if schedule != [] && Allowed(cfg, loose, s, schedule[0]) {
      InvStep(cfg, s, schedule[0]);
      LogsAloneStep(cfg, loose, s, schedule[0]);
      ApartExec(cfg, loose, Do(cfg, s, schedule[0]), schedule[1..]);
    }
  }

  lemma ReachedInv(cfg: Config, loose: set<RunId>, s: State)
    requires Reached(cfg, loose, s)
    ensures Inv(cfg, s)
  {
    var schedule :| Exec(cfg, loose, Init(cfg), schedule) == Some(s);
    InitInv(cfg);
    InvExec(cfg, loose, Init(cfg), schedule);
  }

  lemma InitInv(cfg: Config)
    ensures Inv(cfg, Init(cfg))
  {
  }

  // ---- Main results -------------------------------------------------------------------------

  /** For every output directory at most one run is past its claim, and it holds the lock. */
  lemma OneRunPastClaim(cfg: Config, loose: set<RunId>, s: State)
    requires Reached(cfg, loose, s)
    ensures forall r | r in s.phase && r in cfg && PastClaim(s.phase[r]) ::
              cfg[r] in s.locks && s.locks[cfg[r]] == r
    ensures forall r, q | r in s.phase && q in s.phase && r in cfg && q in cfg
                          && PastClaim(s.phase[r]) && PastClaim(s.phase[q]) ::
              cfg[r] == cfg[q] ==> r == q
  {
    ReachedInv(cfg, loose, s);
  }

  /** Every private directory made has at most one removal started, and exactly one once its run has
      ended and the pool has nothing left to do for it. */
  lemma OneRemovalEach(cfg: Config, loose: set<RunId>, s: State, r: RunId)
    requires Reached(cfg, loose, s) && r in cfg
    ensures r in s.phase && s.removals[r] <= 1 && (s.removals[r] == 1 ==> r in s.created)
    ensures r in s.created && (s.phase[r].Returned? || s.phase[r] == Dropped(Nothing)) ==> s.removals[r] == 1
  {
    ReachedInv(cfg, loose, s);
    assert DirBooked(s, r);
  }

  /** A run that has made its directory gives its claim up by returning only after the removal ended. */
  lemma ReturnAwaitsRemoval(cfg: Config, loose: set<RunId>, s: State, a: Action)
    requires Reached(cfg, loose, s) && Enabled(cfg, s, a)
    ensures var s' := Do(cfg, s, a);
            && (s'.phase[a.r].Returned? && a.r in s.created ==> a.r in s.settled)
            && (a.r in s.created && Holds(s.phase[a.r]) && !Holds(s'.phase[a.r]) ==>
                  a.r in s.settled || a.Drop?)
  {
    ReachedInv(cfg, loose, s);
    assert DirBooked(s, a.r);
  }

  /** No output directory holds the logs of two runs, as long as every run stopped before it left a log
      while its nvdebug lives has the directory to itself. */
  lemma OneRunPerOutputDirectory(cfg: Config, loose: set<RunId>, s: State)
    requires LooseAlone(cfg, loose) && Reached(cfg, loose, s)
    ensures Apart(s)
  {
    var schedule :| Exec(cfg, loose, Init(cfg), schedule) == Some(s);
    InitInv(cfg);
    ApartExec(cfg, loose, Init(cfg), schedule);
  }

  /** No run is ever stuck: one that has neither returned nor been dropped can always take a step. */
  lemma RunsGoOn(cfg: Config, s: State, r: RunId) returns (a: Action)
    requires r in cfg && r in s.phase && InFlight(s.phase[r])
    ensures a.r == r && !a.Drop? && Enabled(cfg, s, a) && Do(cfg, s, a).phase[r] != s.phase[r]
  {
    match s.phase[r] {
      case Start => a := Begin(r);
      case Claiming => a := TryLock(r);
      case Locked => a := Scan(r);
      case Creating => a := MakeDir(r);
      case Writing => a := Wrote(r);
      case Starting => a := Spawn(r);
      case Running => a := Finish(r);
      case Removing => a := RemovalEnds(r);
      case _ => a := Resume(r);
    }
  }

  /** What a dropped run left in the pool goes on to its end, and a removal that was started can end. */
  lemma OrphansGoOn(cfg: Config, s: State, r: RunId) returns (a: Action)
    requires r in cfg && r in s.phase && s.phase[r].Dropped? && s.phase[r].orphan != Nothing
    ensures a.r == r && Enabled(cfg, s, a) && Do(cfg, s, a).phase[r] != s.phase[r]
  {
    match s.phase[r].orphan {
      case LateLock => a := TryLock(r);
      case HeldLock => a := Scan(r);
      case LateCreate => a := MakeDir(r);
      case HeldTemp => a := DropTemp(r);
    }
  }

  /** What a dropped future leaves behind: a claim still waiting may lock late, one that is checking keeps the
      lock until it has, a directory may still be made, and one that was made is removed by its guard. */
  lemma DropLeaves(cfg: Config, s: State, r: RunId)
    requires Enabled(cfg, s, Drop(r)) && LocksMatch(cfg, s)
    ensures var s' := Do(cfg, s, Drop(r));
            && (Enabled(cfg, s', TryLock(r)) <==> s.phase[r].Claiming?)
            && (Enabled(cfg, s', Scan(r)) <==> s.phase[r].Locked?)
            && (Enabled(cfg, s', MakeDir(r)) <==> s.phase[r].Creating?)
            && (Enabled(cfg, s', DropTemp(r)) <==> s.phase[r].Made?)
            && (cfg[r] in s'.locks && s'.locks[cfg[r]] == r <==> s.phase[r].Locked?)
            && s'.writers == s.writers
  {
    LocksMatchStep(cfg, s, Drop(r));
  }

  lemma RemovalsCanEnd(cfg: Config, s: State, r: RunId)
    requires r in cfg && r in s.phase && s.removals[r] == 1 && (s.phase[r].Removing? || s.phase[r].Dropped?)
    ensures Enabled(cfg, s, RemovalEnds(r)) && r in Do(cfg, s, RemovalEnds(r)).settled
  {
  }

  /** A claim, the private directory and the run itself can fail at every stage they have; a failed claim and
      a failed directory let go of nothing they have not got, and a failed run starts the removal. */
  lemma FailuresAtEveryStage(cfg: Config, s: State, r: RunId)
    requires r in cfg && r in s.phase
    ensures s.phase[r].Claiming? || s.phase[r].Locked? ==>
              Enabled(cfg, s, ClaimError(r)) && Do(cfg, s, ClaimError(r)).phase[r] == ClaimFailed
    ensures s.phase[r].Creating? ==>
              Enabled(cfg, s, MakeDirError(r)) && Do(cfg, s, MakeDirError(r)).phase[r] == MakeFailed
    ensures s.phase[r] == Dropped(LateCreate) ==>
              Enabled(cfg, s, MakeDirError(r)) && Do(cfg, s, MakeDirError(r)).phase[r] == Dropped(Nothing)
    ensures s.phase[r].Writing? || s.phase[r].Starting? || s.phase[r].Running? ==>
              && Enabled(cfg, s, Finish(r)) && Do(cfg, s, Finish(r)).phase[r] == Removing
              && Do(cfg, s, Finish(r)).removals == s.removals + multiset{r}
    ensures InFlight(s.phase[r]) ==> Enabled(cfg, s, Drop(r)) && Do(cfg, s, Drop(r)).phase[r].Dropped?
  {
  }

  /** A claim succeeds exactly when the lock is free when it is tried and the directory then holds no run. */
  lemma ClaimExactly(cfg: Config, s: State, r: RunId)
    ensures Enabled(cfg, s, TryLock(r)) && s.phase[r].Claiming? ==>
              var s' := Do(cfg, s, TryLock(r));
              && s'.phase[r] == (if cfg[r] in s.locks then ClaimFailed else Locked)
              && s'.locks == if cfg[r] in s.locks then s.locks else s.locks[cfg[r] := r]
    ensures Enabled(cfg, s, Scan(r)) && s.phase[r].Locked? ==>
              var empty := forall q :: (cfg[r], q) !in s.logs;
              Do(cfg, s, Scan(r)).phase[r] == if empty then Claimed else ClaimFailed
  {
    if Enabled(cfg, s, Scan(r)) && HasLogs(s, cfg[r]) {
      var x :| x in s.logs && x.0 == cfg[r];
      assert (cfg[r], x.1) in s.logs;
    }
  }

  // ---- A process that outlives its run ------------------------------------------------------

  lemma {:induction false} Append(cfg: Config, loose: set<RunId>, s: State, schedule: seq<Action>, a: Action)
    requires Exec(cfg, loose, s, schedule).Some? && Allowed(cfg, loose, Exec(cfg, loose, s, schedule).value, a)
    ensures Exec(cfg, loose, s, schedule + [a]) == Some(Do(cfg, Exec(cfg, loose, s, schedule).value, a))
    decreases |schedule|
  {
    var all := schedule + [a];
    if schedule == [] {
      assert all[0] == a && all[1..] == [];
      assert Exec(cfg, loose, Do(cfg, s, a), []) == Some(Do(cfg, s, a));
    } else {
      assert all[0] == schedule[0] && all[1..] == schedule[1..] + [a];
      Append(cfg, loose, Do(cfg, s, schedule[0]), schedule[1..], a);
    }
  }

  /** Every allowed step stays inside `reach`. */
  ghost predicate Closed(cfg: Config, loose: set<RunId>, reach: State -> bool) {
    forall s, a | reach(s) && Allowed(cfg, loose, s, a) :: reach(Do(cfg, s, a))
  }

  lemma ReachedIsClosed(cfg: Config, loose: set<RunId>, s: State, a: Action)
    requires Reached(cfg, loose, s) && Allowed(cfg, loose, s, a)
    ensures Reached(cfg, loose, Do(cfg, s, a))
  {
    var schedule :| Exec(cfg, loose, Init(cfg), schedule) == Some(s);
    Append(cfg, loose, Init(cfg), schedule, a);
  }

  lemma Take(cfg: Config, loose: set<RunId>, reach: State -> bool, s: State, a: Action) returns (s': State)
    requires Closed(cfg, loose, reach) && reach(s) && Allowed(cfg, loose, s, a)
    ensures reach(s') && s' == Do(cfg, s, a)
  {
    s' := Do(cfg, s, a);
  }

  lemma LockFree(cfg: Config, loose: set<RunId>, reach: State -> bool, s: State, r: RunId) returns (s': State)
    requires Closed(cfg, loose, reach) && reach(s)
    requires r in cfg && r in s.phase && s.phase[r].Start? && cfg[r] !in s.locks
    ensures reach(s')
    ensures s' == s.(locks := s.locks[cfg[r] := r], phase := s.phase[r := Locked])
  {
    s' := Take(cfg, loose, reach, s, Begin(r));
    s' := Take(cfg, loose, reach, s', TryLock(r));
    assert s'.phase == s.phase[r := Locked];
  }

  /** A run can claim a directory that is free and has no logs. */
  lemma ClaimFree(cfg: Config, loose: set<RunId>, reach: State -> bool, s: State, r: RunId) returns (s': State)
    requires Closed(cfg, loose, reach) && reach(s) && r in cfg && r in s.phase && s.phase[r].Start?
    requires cfg[r] !in s.locks && !HasLogs(s, cfg[r])
    ensures reach(s')
    ensures s' == s.(locks := s.locks[cfg[r] := r], phase := s.phase[r := Creating])
  {
    s' := LockFree(cfg, loose, reach, s, r);
    s' := Take(cfg, loose, reach, s', Scan(r));
    s' := Take(cfg, loose, reach, s', Resume(r));
    assert s'.phase == s.phase[r := Creating];
  }

  lemma OwnTemp(cfg: Config, loose: set<RunId>, reach: State -> bool, s: State, r: RunId) returns (s': State)
    requires Closed(cfg, loose, reach) && reach(s) && r in cfg && r in s.phase && s.phase[r].Creating?
    ensures reach(s')
    ensures s' == s.(created := s.created + {r}, phase := s.phase[r := Writing])
  {
    s' := Take(cfg, loose, reach, s, MakeDir(r));
    s' := Take(cfg, loose, reach, s', Resume(r));
    assert s'.phase == s.phase[r := Writing];
  }

  /** A run past its claim can start nvdebug. */
  lemma StartProcess(cfg: Config, loose: set<RunId>, reach: State -> bool, s: State, r: RunId) returns (s': State)
    requires Closed(cfg, loose, reach) && reach(s) && r in cfg && r in s.phase && s.phase[r].Creating?
    ensures reach(s')
    ensures s' == s.(created := s.created + {r}, phase := s.phase[r := Running], writers := s.writers + {r})
  {
    s' := OwnTemp(cfg, loose, reach, s, r);
    s' := Take(cfg, loose, reach, s', Wrote(r));
    s' := Take(cfg, loose, reach, s', Spawn(r));
    assert s'.phase == s.phase[r := Running];
  }

  /** A run is dropped as soon as its nvdebug has started. */
  lemma DroppedEarly(cfg: Config, loose: set<RunId>, reach: State -> bool, r: RunId) returns (s: State)
    requires Closed(cfg, loose, reach) && reach(Init(cfg)) && r in loose && r in cfg
    ensures reach(s) && s.locks == map[] && s.logs == {} && s.writers == {r}
    ensures s.phase == Init(cfg).phase[r := Dropped(Nothing)]
  {
    s := ClaimFree(cfg, loose, reach, Init(cfg), r);
    s := StartProcess(cfg, loose, reach, s, r);
    s := Take(cfg, loose, reach, s, Drop(r));
  }

  /** A second run then claims the directory, and both write to it. */
  lemma BothWrite(cfg: Config, loose: set<RunId>, reach: State -> bool, r: RunId, q: RunId) returns (s: State)
    requires Closed(cfg, loose, reach) && reach(Init(cfg))
    requires r in loose && r in cfg && q in cfg && r != q && cfg[r] == cfg[q]
    ensures reach(s) && !Apart(s)
  {
    s := DroppedEarly(cfg, loose, reach, r);
    s := ClaimFree(cfg, loose, reach, s, q);
    s := StartProcess(cfg, loose, reach, s, q);
    s := Take(cfg, loose, reach, s, Log(q));
    s := Take(cfg, loose, reach, s, Log(r));
    assert (cfg[r], r) in s.logs && (cfg[r], q) in s.logs;
  }

  /** Alone on a free and empty directory a run can go all the way: it returns with its logs left, its private
      directory removed and its claim released. */
  lemma CompleteRun(cfg: Config, loose: set<RunId>, reach: State -> bool, s: State, r: RunId) returns (s': State)
    requires Closed(cfg, loose, reach) && reach(s) && r in cfg && r in s.phase && s.phase[r].Start?
    requires cfg[r] !in s.locks && !HasLogs(s, cfg[r]) && r !in s.writers
    ensures reach(s') && s'.phase == s.phase[r := Returned] && s'.locks == s.locks && s'.writers == s.writers
    ensures s'.logs == s.logs + {(cfg[r], r)} && s'.created == s.created + {r}
    ensures s'.removals == s.removals + multiset{r} && s'.settled == s.settled + {r}
  {
    s' := ClaimFree(cfg, loose, reach, s, r);
    s' := StartProcess(cfg, loose, reach, s', r);
    s' := LogAndExit(cfg, loose, reach, s', r);
    s' := RemoveAndReturn(cfg, loose, reach, s', r);
    assert s.locks[cfg[r] := r] - {cfg[r]} == s.locks;
  }

  lemma LogAndExit(cfg: Config, loose: set<RunId>, reach: State -> bool, s: State, r: RunId) returns (s': State)
    requires Closed(cfg, loose, reach) && reach(s) && r in cfg && r in s.phase && s.phase[r].Running? && r in s.writers
    ensures reach(s')
    ensures s' == s.(writers := s.writers - {r}, logs := s.logs + {(cfg[r], r)})
  {
    s' := Take(cfg, loose, reach, s, Log(r));
    assert s'.phase == s.phase;
    s' := Take(cfg, loose, reach, s', Exit(r));
    assert s'.phase == s.phase;
  }

  lemma RemoveAndReturn(cfg: Config, loose: set<RunId>, reach: State -> bool, s: State, r: RunId) returns (s': State)
    requires Closed(cfg, loose, reach) && reach(s) && r in cfg && r in s.phase && s.phase[r].Running?
    requires r !in s.writers
    ensures reach(s')
    ensures s' == s.(locks := s.locks - {cfg[r]}, phase := s.phase[r := Returned],
                     removals := s.removals + multiset{r}, settled := s.settled + {r})
  {
    s' := Take(cfg, loose, reach, s, Finish(r));
    s' := Take(cfg, loose, reach, s', RemovalEnds(r));
    s' := Take(cfg, loose, reach, s', Resume(r));
    assert s'.phase == s.phase[r := Returned];
  }

  /** A loose run that shares its directory can leave its logs beside another's. */
  lemma OrphanShares(cfg: Config, loose: set<RunId>, r: RunId, q: RunId) returns (s: State)
    requires r in loose && r in cfg && q in cfg && r != q && cfg[r] == cfg[q]
    ensures Reached(cfg, loose, s) && !Apart(s)
  {
    ghost var reach := (s: State) => Reached(cfg, loose, s);
    assert Exec(cfg, loose, Init(cfg), []) == Some(Init(cfg));
    forall s, a | reach(s) && Allowed(cfg, loose, s, a) ensures reach(Do(cfg, s, a)) {
      ReachedIsClosed(cfg, loose, s, a);
    }
    s := BothWrite(cfg, loose, reach, r, q);
  }

  /** Two runs can come to share an output directory exactly when one of two runs that ask for it may be
      stopped while its nvdebug lives and has left no log. */
  lemma ApartExactlyWhen(cfg: Config, loose: set<RunId>)
    ensures (forall s :: Reached(cfg, loose, s) ==> Apart(s)) <==> LooseAlone(cfg, loose)
  {
    if LooseAlone(cfg, loose) {
      forall s | Reached(cfg, loose, s) ensures Apart(s) {
        OneRunPerOutputDirectory(cfg, loose, s);
      }
    } else {
      var r, q :| r in loose && r in cfg && q in cfg && cfg[r] == cfg[q] && r != q;
      var s := OrphanShares(cfg, loose, r, q);
    }
  }
}
