/**
 All interleavings of concurrent launch requests. A request first cleans up old run
 directories, then launches its own run; the registry lock covers only some of its steps.
 The scheduler, file times, process exits and failures are choices of the environment.
 */
module LauncherProtocol {
  import opened LauncherRegistry
  import opened Text

  type Request = nat

  /** The run id each request asks for, the directories an earlier server left behind,
      and how many of the listed directories a cleanup retains. */
  datatype Config = Config(ids: map<Request, RunId>, leftovers: set<RunId>, retain: nat)

  datatype Creator = Earlier | By(request: Request)

  /** A directory stops being intact once a recursive delete has touched it. */
  datatype Dir = Dir(creator: Creator, intact: bool)

  datatype Phase =
    | Validating
    | Listing(seen: set<RunId>)
    | Sweeping(victims: set<RunId>)
    | Deleting(rest: set<RunId>, target: RunId)  // unregistered, recursive delete under way
    | Swept
    | Reserved
    | Created
    | Spawned
    | MkdirFailed
    | SpawnFailed
    | Undoing      // claim given back, recursive delete of its own directory under way
    | Registered
    | Refused

  /** A process is identified by the request that started it. */
  datatype State = State(
    registry: Registry<Request>,
    dirs: map<RunId, Dir>,
    phase: map<Request, Phase>,
    running: set<Request>)

  datatype Action =
    | Reject(r: Request)
    | BeginCleanup(r: Request)
    | See(r: Request, names: set<RunId>)
    | Choose(r: Request, chosen: set<RunId>)
    | Check(r: Request, name: RunId)
    | Erase(r: Request)
    | EndErase(r: Request, gone: bool)
    | EndCleanup(r: Request)
    | Claim(r: Request)
    | Mkdir(r: Request)
    | MkdirError(r: Request)
    | Spawn(r: Request)
    | SpawnError(r: Request)
    | GiveBack(r: Request)
    | Enter(r: Request)
    | Exit(r: Request)

  function Init(cfg: Config): State {
    State(Registry(map[], {}),
          map x | x in cfg.leftovers :: Dir(Earlier, true),
          map r | r in cfg.ids :: Validating,
          {})
  }

  /** The path a recursive delete of this phase works on. */
  function Target(cfg: Config, r: Request, p: Phase): Option<RunId>
    requires r in cfg.ids
  {
    match p
    case Deleting(_, target) => Some(target)
    case Undoing => Some(cfg.ids[r])
    case _ => None
  }

  predicate Enabled(cfg: Config, s: State, a: Action) {
    && a.r in cfg.ids
    && a.r in s.phase
    && var p := s.phase[a.r];
       match a
       case Reject(_) => p.Validating? || p.Swept?
       case BeginCleanup(_) => p.Validating?
       case See(_, names) => p.Listing? && names <= s.dirs.Keys
       case Choose(_, chosen) =>
         p.Listing? && chosen <= p.seen && (chosen == {} || |chosen| + cfg.retain <= |p.seen|)
       case Check(_, name) => p.Sweeping? && name in p.victims
       case Erase(_) => Target(cfg, a.r, p).Some?
       case EndErase(_, _) => Target(cfg, a.r, p).Some?
       case EndCleanup(_) => p == Sweeping({})
       case Claim(_) => p.Swept?
       case Mkdir(_) => p.Reserved?
       case MkdirError(_) => p.Reserved?
       case Spawn(_) => p.Created?
       case SpawnError(_) => p.Created?
       case GiveBack(_) => p.MkdirFailed? || p.SpawnFailed?
       case Enter(_) => p.Spawned?
       case Exit(_) => a.r in s.running
  }

  /** Registration, claims and removals from the registry happen under the registry lock. */
  function NextRegistry(cfg: Config, s: State, a: Action): Registry<Request>
    requires Enabled(cfg, s, a)
  {
    var id := cfg.ids[a.r];
    match a
    case Check(_, name) =>
      if InUse(s.registry, s.running, name) then s.registry else Unregister(s.registry, name)
    case Claim(_) => if s.registry.Knows(id) then s.registry else s.registry.Reserve(id).value
    case GiveBack(_) => s.registry.Discard(id)
    case Enter(r) => Register(s.registry, id, r)
    case _ => s.registry
  }

  /** The file system is changed outside the lock. */
  function NextDirs(cfg: Config, s: State, a: Action): map<RunId, Dir>
    requires Enabled(cfg, s, a)
  {
    var id := cfg.ids[a.r];
    match a
    case Erase(r) => Touch(s.dirs, Target(cfg, r, s.phase[r]).value)
    case EndErase(r, gone) =>
      var x := Target(cfg, r, s.phase[r]).value;
      if gone then s.dirs - {x} else Touch(s.dirs, x)
    case Mkdir(r) => if id in s.dirs then s.dirs else s.dirs[id := Dir(By(r), true)]
    case _ => s.dirs
  }

  function Touch(dirs: map<RunId, Dir>, x: RunId): map<RunId, Dir> {
    if x in dirs then dirs[x := dirs[x].(intact := false)] else dirs
  }

  function NextRunning(s: State, a: Action): set<Request> {
    match a
    case Spawn(r) => s.running + {r}
    case Exit(r) => s.running - {r}
    case _ => s.running
  }

  function NextPhase(cfg: Config, s: State, a: Action): Phase
    requires Enabled(cfg, s, a)
  {
    var p := s.phase[a.r];
    match a
    case Reject(_) => Refused
    case BeginCleanup(_) => Listing({})
    case See(_, names) => Listing(p.seen + names)
    case Choose(_, chosen) => Sweeping(chosen)
    case Check(_, name) =>
      if InUse(s.registry, s.running, name) then Sweeping(p.victims - {name})
      else Deleting(p.victims - {name}, name)
    case Erase(_) => p
    case EndErase(_, _) => if p.Undoing? then Refused else Sweeping(p.rest)
    case EndCleanup(_) => Swept
    case Claim(r) => if s.registry.Knows(cfg.ids[r]) then Refused else Reserved
    case Mkdir(r) => if cfg.ids[r] in s.dirs then MkdirFailed else Created
    case MkdirError(_) => MkdirFailed
    case Spawn(_) => Spawned
    case SpawnError(_) => SpawnFailed
    case GiveBack(_) => if p.MkdirFailed? then Refused else Undoing
    case Enter(_) => Registered
    case Exit(_) => p
  }

  function Do(cfg: Config, s: State, a: Action): State
    requires Enabled(cfg, s, a)
  {
    State(NextRegistry(cfg, s, a), NextDirs(cfg, s, a),
          s.phase[a.r := NextPhase(cfg, s, a)], NextRunning(s, a))
  }

  /** The state after a schedule, or `None` when the schedule takes a step that is not possible. */
  function Exec(cfg: Config, s: State, schedule: seq<Action>): Option<State>
    decreases |schedule|
  {
    if schedule == [] then Some(s)
    else if Enabled(cfg, s, schedule[0]) then Exec(cfg, Do(cfg, s, schedule[0]), schedule[1..])
    else None
  }

  ghost predicate Reachable(cfg: Config, s: State) {
    exists schedule :: Exec(cfg, Init(cfg), schedule) == Some(s)
  }

  // ---- What holds for every configuration -------------------------------------------------

  /** Phases in which the request owns a reservation. */
  predicate Holding(p: Phase) {
    p.Reserved? || p.Created? || p.Spawned? || p.MkdirFailed? || p.SpawnFailed?
  }

  /** Claims and registrations are disjoint, and a claim belongs to exactly one request in flight. */
  ghost predicate ClaimsOwned(cfg: Config, s: State) {
    && s.phase.Keys == cfg.ids.Keys
    && s.registry.runs.Keys !! s.registry.reserved
    && (forall r | r in s.phase && Holding(s.phase[r]) :: cfg.ids[r] in s.registry.reserved)
    && (forall x | x in s.registry.reserved :: exists r :: Owns(cfg, s, r, x))
    && (forall r, q, x | Owns(cfg, s, r, x) && Owns(cfg, s, q, x) :: r == q)
  }

  predicate Owns(cfg: Config, s: State, r: Request, x: RunId) {
    r in s.phase && r in cfg.ids && Holding(s.phase[r]) && cfg.ids[r] == x
  }

  /** A registration names a request that finished its launch under that id. */
  ghost predicate RegistrationsSound(cfg: Config, s: State) {
    && s.phase.Keys == cfg.ids.Keys
    && (forall x | x in s.registry.runs ::
          var r := s.registry.runs[x]; r in s.phase && cfg.ids[r] == x && s.phase[r].Registered?)
  }

  /** A process that runs is either about to be registered or registered. */
  ghost predicate ProcessesTracked(cfg: Config, s: State) {
    && s.phase.Keys == cfg.ids.Keys
    && (forall r | r in s.running :: r in s.phase && Tracked(cfg, s, r))
  }

  predicate Tracked(cfg: Config, s: State, r: Request)
    requires r in s.phase
  {
    s.phase[r].Spawned? || (s.phase[r].Registered? && IsRegistered(cfg, s, r))
  }

  predicate IsRegistered(cfg: Config, s: State, r: Request) {
    r in cfg.ids && cfg.ids[r] in s.registry.runs && s.registry.runs[cfg.ids[r]] == r
  }

  /** `s'` differs from `s` in the phase of `r` and in the registry. */
  predicate Moves(s: State, s': State, r: Request, g: Registry<Request>) {
    && r in s.phase && s'.registry == g
    && s'.phase.Keys == s.phase.Keys
    && forall q | q in s.phase && q != r :: s'.phase[q] == s.phase[q]
  }

  lemma ClaimsKept(cfg: Config, s: State, s': State, r: Request, g: Registry<Request>)
    requires ClaimsOwned(cfg, s) && Moves(s, s', r, g)
    requires g.reserved == s.registry.reserved && g.runs.Keys <= s.registry.runs.Keys
    requires Holding(s'.phase[r]) == Holding(s.phase[r])
    ensures ClaimsOwned(cfg, s')
  {
    forall x | x in s'.registry.reserved ensures exists q :: Owns(cfg, s', q, x) {
      var q :| Owns(cfg, s, q, x);
      assert Owns(cfg, s', q, x);
    }
    forall p, q, x | Owns(cfg, s', p, x) && Owns(cfg, s', q, x) ensures p == q {
      assert Owns(cfg, s, p, x) && Owns(cfg, s, q, x);
    }
  }

  lemma ClaimTaken(cfg: Config, s: State, s': State, r: Request, g: Registry<Request>)
    requires ClaimsOwned(cfg, s) && Moves(s, s', r, g)
    requires s.registry.Reserve(cfg.ids[r]) == Some(g) && Holding(s'.phase[r])
    ensures ClaimsOwned(cfg, s')
  {
    forall x | x in s'.registry.reserved ensures exists q :: Owns(cfg, s', q, x) {
      if x == cfg.ids[r] {
        assert Owns(cfg, s', r, x);
      } else {
        var q :| Owns(cfg, s, q, x);
        assert Owns(cfg, s', q, x);
      }
    }
    forall p, q, x | Owns(cfg, s', p, x) && Owns(cfg, s', q, x) ensures p == q {
      assert p != r ==> Owns(cfg, s, p, x);
      assert q != r ==> Owns(cfg, s, q, x);
    }
  }

  lemma ClaimReleased(cfg: Config, s: State, s': State, r: Request, g: Registry<Request>)
    requires ClaimsOwned(cfg, s) && Moves(s, s', r, g)
    requires Holding(s.phase[r]) && !Holding(s'.phase[r])
    requires g.reserved == s.registry.reserved - {cfg.ids[r]}
    requires g.runs.Keys <= s.registry.runs.Keys + {cfg.ids[r]}
    ensures ClaimsOwned(cfg, s')
  {
    assert Owns(cfg, s, r, cfg.ids[r]);
    forall x | x in s'.registry.reserved ensures exists q :: Owns(cfg, s', q, x) {
      var q :| Owns(cfg, s, q, x);
      assert Owns(cfg, s', q, x);
    }
    forall p, q, x | Owns(cfg, s', p, x) && Owns(cfg, s', q, x) ensures p == q {
      assert Owns(cfg, s, p, x) && Owns(cfg, s, q, x);
    }
    forall q | q in s'.phase && Holding(s'.phase[q]) ensures cfg.ids[q] in s'.registry.reserved {
      assert Owns(cfg, s, q, cfg.ids[q]);
    }
  }

  lemma ClaimsOwnedStep(cfg: Config, s: State, a: Action)
    requires ClaimsOwned(cfg, s) && Enabled(cfg, s, a)
    ensures ClaimsOwned(cfg, Do(cfg, s, a))
  {
    var s' := Do(cfg, s, a);
    var g := s'.registry;
    StepMoves(cfg, s, a);
    if a.Claim? && s'.phase[a.r].Reserved? {
      ClaimTaken(cfg, s, s', a.r, g);
    } else if a.GiveBack? || a.Enter? {
      ClaimReleased(cfg, s, s', a.r, g);
    } else {
      OtherStep(cfg, s, a);
      ClaimsKept(cfg, s, s', a.r, g);
    }
  }

  lemma StepMoves(cfg: Config, s: State, a: Action)
    requires Enabled(cfg, s, a)
    ensures Moves(s, Do(cfg, s, a), a.r, Do(cfg, s, a).registry)
  {
  }

  /** Any other step leaves the claims alone. */
  lemma OtherStep(cfg: Config, s: State, a: Action)
    requires Enabled(cfg, s, a) && !a.GiveBack? && !a.Enter? && !(a.Claim? && NextPhase(cfg, s, a).Reserved?)
    ensures NextRegistry(cfg, s, a).reserved == s.registry.reserved
    ensures NextRegistry(cfg, s, a).runs.Keys <= s.registry.runs.Keys
    ensures Holding(NextPhase(cfg, s, a)) == Holding(s.phase[a.r])
  {
  }

  lemma RegistrationsSoundStep(cfg: Config, s: State, a: Action)
    requires RegistrationsSound(cfg, s) && Enabled(cfg, s, a)
    ensures RegistrationsSound(cfg, Do(cfg, s, a))
  {
    var s' := Do(cfg, s, a);
    forall x | x in s'.registry.runs
      ensures var r := s'.registry.runs[x]; r in s'.phase && cfg.ids[r] == x && s'.phase[r].Registered?
    {
      if !a.Enter? {
        assert x in s.registry.runs && s'.registry.runs[x] == s.registry.runs[x];
      }
    }
  }

  /** The cleanup never forgets a process that runs, and a registration replaces no other. */
  lemma RegistrationKept(cfg: Config, s: State, a: Action, r: Request)
    requires ClaimsOwned(cfg, s) && Enabled(cfg, s, a)
    requires IsRegistered(cfg, s, r) && r in s.running
    ensures IsRegistered(cfg, Do(cfg, s, a), r)
  {
    if a.Enter? {
      assert cfg.ids[a.r] !in s.registry.runs;
    }
  }

  lemma ProcessesTrackedStep(cfg: Config, s: State, a: Action)
    requires ClaimsOwned(cfg, s) && ProcessesTracked(cfg, s) && Enabled(cfg, s, a)
    ensures ProcessesTracked(cfg, Do(cfg, s, a))
  {
    var s' := Do(cfg, s, a);
    forall r | r in s'.running
      ensures r in s'.phase && Tracked(cfg, s', r)
    {
      if r in s.running && IsRegistered(cfg, s, r) {
        RegistrationKept(cfg, s, a, r);
      }
    }
  }

  ghost predicate Inv(cfg: Config, s: State) {
    ClaimsOwned(cfg, s) && RegistrationsSound(cfg, s) && ProcessesTracked(cfg, s)
  }

  lemma {:induction false} InvExec(cfg: Config, s: State, schedule: seq<Action>)
    requires Inv(cfg, s)
    ensures Exec(cfg, s, schedule).Some? ==> Inv(cfg, Exec(cfg, s, schedule).value)
    decreases |schedule|
  {
    if schedule != [] && Enabled(cfg, s, schedule[0]) {
      ClaimsOwnedStep(cfg, s, schedule[0]);
      RegistrationsSoundStep(cfg, s, schedule[0]);
      ProcessesTrackedStep(cfg, s, schedule[0]);
      InvExec(cfg, Do(cfg, s, schedule[0]), schedule[1..]);
    }
  }

  /** In every interleaving claims and registrations are disjoint, a claim has exactly one owner
      in flight, and a request that has ended holds none. */
  lemma ClaimsHaveOneOwner(cfg: Config, s: State)
    requires Reachable(cfg, s)
    ensures s.phase.Keys == cfg.ids.Keys
    ensures s.registry.runs.Keys !! s.registry.reserved
    ensures forall x :: x in s.registry.reserved <==> exists r :: Owns(cfg, s, r, x)
    ensures forall r, q, x :: Owns(cfg, s, r, x) && Owns(cfg, s, q, x) ==> r == q
    ensures forall r, x | r in s.phase && (s.phase[r].Registered? || s.phase[r].Refused?) :: !Owns(cfg, s, r, x)
  {
    var schedule :| Exec(cfg, Init(cfg), schedule) == Some(s);
    InvExec(cfg, Init(cfg), schedule);
  }

  /** In every interleaving a process that still runs is registered once its launch returned, a
      registration is made only for an id that has none, and no step forgets a running process. */
  lemma RunningRunsStayRegistered(cfg: Config, s: State, a: Action)
    requires Reachable(cfg, s) && Enabled(cfg, s, a)
    ensures s.phase.Keys == cfg.ids.Keys && s.running <= s.phase.Keys
    ensures forall r | r in s.running && s.phase[r].Registered? :: IsRegistered(cfg, s, r)
    ensures forall r | r in s.running && IsRegistered(cfg, s, r) :: IsRegistered(cfg, Do(cfg, s, a), r)
    ensures a.Enter? ==> cfg.ids[a.r] !in s.registry.runs
  {
    var schedule :| Exec(cfg, Init(cfg), schedule) == Some(s);
    InvExec(cfg, Init(cfg), schedule);
    forall r | r in s.running && IsRegistered(cfg, s, r) ensures IsRegistered(cfg, Do(cfg, s, a), r) {
      RegistrationKept(cfg, s, a, r);
    }
  }

  /** A cleanup forgets and starts to delete a directory exactly when its id is neither reserved nor that of a
      process that runs, and it touches no other registration. */
  lemma CheckExactly(cfg: Config, s: State, c: Request, x: RunId)
    requires Enabled(cfg, s, Check(c, x))
    ensures var s' := Do(cfg, s, Check(c, x));
            var used := x in s.registry.reserved || (x in s.registry.runs && s.registry.runs[x] in s.running);
            && (Target(cfg, c, s'.phase[c]) == Some(x) <==> !used)
            && (Target(cfg, c, s'.phase[c]).None? <==> used)
            && s'.registry == (if used then s.registry else Registry(s.registry.runs - {x}, s.registry.reserved))
            && s'.dirs == s.dirs && s'.running == s.running
  {
  }

  /** A launch goes on exactly when its id is neither registered nor reserved, and then reserves it; it makes a
      directory exactly when there is none of that name. */
  lemma LaunchGoesOnExactly(cfg: Config, s: State, r: Request)
    ensures Enabled(cfg, s, Claim(r)) ==>
              var s' := Do(cfg, s, Claim(r));
              var known := cfg.ids[r] in s.registry.runs || cfg.ids[r] in s.registry.reserved;
              && s'.phase[r] == (if known then Refused else Reserved)
              && s'.registry
                 == (if known then s.registry else Registry(s.registry.runs, s.registry.reserved + {cfg.ids[r]}))
    ensures Enabled(cfg, s, Mkdir(r)) ==>
              var s' := Do(cfg, s, Mkdir(r));
              && s'.phase[r] == (if cfg.ids[r] in s.dirs then MkdirFailed else Created)
              && s'.dirs == if cfg.ids[r] in s.dirs then s.dirs else s.dirs[cfg.ids[r] := Dir(By(r), true)]
  {
  }

  /** A launch that ends has registered its own process and nothing else, or has given its claim back. */
  lemma LaunchEndsExactly(cfg: Config, s: State, r: Request)
    ensures Enabled(cfg, s, Enter(r)) ==>
              Do(cfg, s, Enter(r)).registry
              == Registry(s.registry.runs[cfg.ids[r] := r], s.registry.reserved - {cfg.ids[r]})
    ensures Enabled(cfg, s, GiveBack(r)) ==>
              Do(cfg, s, GiveBack(r)).registry == Registry(s.registry.runs, s.registry.reserved - {cfg.ids[r]})
  {
  }

  /** A step changes a directory only by deleting its target or by making its own. */
  lemma StepTouches(cfg: Config, s: State, a: Action, x: RunId)
    requires Enabled(cfg, s, a)
    ensures var s' := Do(cfg, s, a);
            (x in s'.dirs) != (x in s.dirs) || (x in s.dirs && s'.dirs[x] != s.dirs[x]) ==>
              || ((a.Erase? || a.EndErase?) && Target(cfg, a.r, s.phase[a.r]) == Some(x))
              || (a.Mkdir? && cfg.ids[a.r] == x && x !in s.dirs)
    ensures a.EndErase? && a.gone ==> Target(cfg, a.r, s.phase[a.r]).value !in Do(cfg, s, a).dirs
    ensures (a.Erase? || a.EndErase?) && Target(cfg, a.r, s.phase[a.r]) == Some(x) && x in Do(cfg, s, a).dirs ==>
              !Do(cfg, s, a).dirs[x].intact
  {
  }

  /** A request can be refused before its cleanup and again before its claim, and that changes nothing. */
  lemma RefusalLeavesAll(cfg: Config, s: State, r: Request)
    requires r in cfg.ids && r in s.phase && (s.phase[r].Validating? || s.phase[r].Swept?)
    ensures Enabled(cfg, s, Reject(r)) && Do(cfg, s, Reject(r)) == s.(phase := s.phase[r := Refused])
  {
  }

  /** Making the directory and starting the process can fail, and then the claim can be given back. */
  lemma LaunchCanFail(cfg: Config, s: State, r: Request)
    requires r in cfg.ids && r in s.phase
    ensures s.phase[r].Reserved? ==>
              && Enabled(cfg, s, MkdirError(r))
              && Do(cfg, s, MkdirError(r)) == s.(phase := s.phase[r := MkdirFailed])
    ensures s.phase[r].Created? ==>
              && Enabled(cfg, s, SpawnError(r))
              && Do(cfg, s, SpawnError(r)) == s.(phase := s.phase[r := SpawnFailed])
  {
  }

  /** A process that runs can exit, and nothing else changes by that. */
  lemma ProcessesExit(cfg: Config, s: State, r: Request)
    requires r in cfg.ids && r in s.phase
    ensures Enabled(cfg, s, Exit(r)) <==> r in s.running
    ensures Enabled(cfg, s, Exit(r)) ==> Do(cfg, s, Exit(r)) == s.(running := s.running - {r})
  {
    if r in s.running {
      assert s.phase[r := s.phase[r]] == s.phase;
    }
  }

  /** No launch is ever stuck: one that has not ended can always take a step of its own. */
  lemma LaunchesGoOn(cfg: Config, s: State, r: Request) returns (a: Action)
    requires r in cfg.ids && r in s.phase && !s.phase[r].Registered? && !s.phase[r].Refused?
    ensures a.r == r && !a.Exit? && Enabled(cfg, s, a) && Do(cfg, s, a).phase[r] != s.phase[r]
  {
    match s.phase[r] {
      case Validating => a := BeginCleanup(r);
      case Listing(_) => a := Choose(r, {});
      case Sweeping(victims) =>
        if victims == {} {
          a := EndCleanup(r);
        } else {
          var x :| x in victims;
          a := Check(r, x);
          assert x !in victims - {x};
        }
      case Deleting(_, _) => a := EndErase(r, true);
      case Swept => a := Claim(r);
      case Reserved => a := Mkdir(r);
      case Created => a := Spawn(r);
      case Spawned => a := Enter(r);
      case MkdirFailed => a := GiveBack(r);
      case SpawnFailed => a := GiveBack(r);
      case Undoing => a := EndErase(r, true);
    }
  }

  // ---- The directory of a running run -----------------------------------------------------

  /** Every running process still has the untouched directory its own request created. */
  ghost predicate DirsSafe(cfg: Config, s: State) {
    forall r | r in s.running :: r in cfg.ids && OwnDir(cfg, s, r)
  }

  predicate OwnDir(cfg: Config, s: State, r: Request)
    requires r in cfg.ids
  {
    cfg.ids[r] in s.dirs && s.dirs[cfg.ids[r]] == Dir(By(r), true)
  }

  /** No two requests ask for one id, and no request asks for the name of a leftover directory
      while there is another request. */
  ghost predicate Unshared(cfg: Config) {
    forall r, q | r in cfg.ids && q in cfg.ids && r != q ::
      cfg.ids[r] != cfg.ids[q] && cfg.ids[r] !in cfg.leftovers
  }

  /** Phases before the request has made a directory. */
  predicate Early(p: Phase) {
    p.Validating? || p.Listing? || p.Sweeping? || p.Deleting? || p.Swept? || p.Reserved? || p.MkdirFailed?
  }

  /** The request's directory is in use: being filled, or its process runs. */
  predicate Live(s: State, r: Request)
    requires r in s.phase
  {
    var p := s.phase[r];
    p.Created? || p.Spawned? || p.SpawnFailed? || (p.Registered? && r in s.running)
  }

  /** Directories a cleanup is about to delete or is deleting. */
  function Chosen(p: Phase): set<RunId> {
    match p
    case Sweeping(victims) => victims
    case Deleting(rest, target) => rest + {target}
    case _ => {}
  }

  /** `r` asks for the id of another request `q`, or for a leftover name while `q` is there too. */
  predicate Shares(cfg: Config, r: Request, q: Request) {
    r in cfg.ids && q in cfg.ids && r != q && (cfg.ids[r] == cfg.ids[q] || cfg.ids[r] in cfg.leftovers)
  }

  /** Every directory there can be before `r` makes its own, without one that only `q` would make. */
  function Around(cfg: Config, r: Request, q: Request): set<RunId>
    requires r in cfg.ids
  {
    cfg.leftovers + (set o | o in cfg.ids && o != r && o != q :: cfg.ids[o]) + {cfg.ids[r]}
  }

  /** Whenever an id is shared, the retention limit covers all directories there can be. */
  ghost predicate Covered(cfg: Config) {
    forall r, q | Shares(cfg, r, q) :: |Around(cfg, r, q)| <= cfg.retain
  }

  /** The names of leftovers and of requests past their early phases. */
  function Made(cfg: Config, s: State): set<RunId>
    requires s.phase.Keys == cfg.ids.Keys
  {
    cfg.leftovers + set o | o in cfg.ids && !Early(s.phase[o]) :: cfg.ids[o]
  }

  /** The cleanup of `c` deletes the directory of `r` only after `r` made it and no longer uses it. */
  ghost predicate CleanupApart(cfg: Config, s: State, c: Request, r: Request)
    requires c in cfg.ids && r in cfg.ids && s.phase.Keys == cfg.ids.Keys
  {
    && (cfg.ids[r] in Chosen(s.phase[c]) ==> !Early(s.phase[r]))
    && (s.phase[c].Deleting? && s.phase[c].target == cfg.ids[r] ==> !Live(s, r))
    && (cfg.ids[c] == cfg.ids[r] ==> cfg.ids[c] !in Chosen(s.phase[c]))
  }

  /** While a failed launch of `c` deletes its directory, no request `r` for the same id gets one. */
  ghost predicate UndoApart(cfg: Config, s: State, c: Request, r: Request)
    requires c in cfg.ids && r in cfg.ids && s.phase.Keys == cfg.ids.Keys
  {
    cfg.ids[c] == cfg.ids[r] && s.phase[c].Undoing? ==>
      !Live(s, r) && !s.phase[r].Undoing? && (Early(s.phase[r]) ==> cfg.ids[r] in s.dirs)
  }

  ghost predicate DirInv(cfg: Config, s: State) {
    && s.phase.Keys == cfg.ids.Keys
    && s.dirs.Keys <= Made(cfg, s)
    && (forall c | c in cfg.ids && s.phase[c].Listing? :: s.phase[c].seen <= Made(cfg, s))
    && (forall c, r | c in cfg.ids && r in cfg.ids && c != r :: CleanupApart(cfg, s, c, r))
    && (forall c, r | c in cfg.ids && r in cfg.ids && c != r :: UndoApart(cfg, s, c, r))
    && (forall r | r in cfg.ids && Live(s, r) :: OwnDir(cfg, s, r))
  }

  lemma LiveIsInUse(cfg: Config, s: State, r: Request)
    requires Inv(cfg, s) && r in s.phase && Live(s, r)
    ensures InUse(s.registry, s.running, cfg.ids[r])
  {
  }

  lemma OneLivePerId(cfg: Config, s: State, c: Request, r: Request)
    requires Inv(cfg, s) && c in s.phase && r in s.phase && Live(s, c) && Live(s, r) && cfg.ids[c] == cfg.ids[r]
    ensures c == r
  {
    assert Holding(s.phase[c]) ==> Owns(cfg, s, c, cfg.ids[c]);
    assert Holding(s.phase[r]) ==> Owns(cfg, s, r, cfg.ids[r]);
  }

  /** A request that has made its directory never returns to an early phase, and a directory
      no longer in use stays so. */
  lemma OwnerStep(cfg: Config, s: State, a: Action, r: Request)
    requires Enabled(cfg, s, a) && r in s.phase
    ensures !Early(s.phase[r]) ==> !Early(Do(cfg, s, a).phase[r])
    ensures !Early(s.phase[r]) && !Live(s, r) ==> !Live(Do(cfg, s, a), r)
  {
  }

  lemma MadeGrows(cfg: Config, s: State, a: Action)
    requires s.phase.Keys == cfg.ids.Keys && Enabled(cfg, s, a)
    ensures Made(cfg, s) <= Made(cfg, Do(cfg, s, a))
  {
    forall o | o in cfg.ids && !Early(s.phase[o]) ensures cfg.ids[o] in Made(cfg, Do(cfg, s, a)) {
      OwnerStep(cfg, s, a, o);
    }
  }

  /** What a cleanup of `c` can see is covered, when `r` has no directory yet and `q` shares its id. */
  lemma SeenIsCovered(cfg: Config, s: State, c: Request, r: Request, q: Request)
    requires Covered(cfg) && DirInv(cfg, s) && c in cfg.ids && s.phase[c].Listing?
    requires Shares(cfg, r, q) && Early(s.phase[r]) && (Early(s.phase[q]) || cfg.ids[q] == cfg.ids[r])
    ensures |s.phase[c].seen| <= cfg.retain
  {
    SubsetCardinality(s.phase[c].seen, Around(cfg, r, q));
  }

  /** A cleanup chooses no directory of a request that has not made one, and never a shared id. */
  lemma ChooseApart(cfg: Config, s: State, c: Request, r: Request)
    requires Covered(cfg) && DirInv(cfg, s) && c in cfg.ids && r in cfg.ids && c != r && s.phase[c].Listing?
    ensures |s.phase[c].seen| > cfg.retain && cfg.ids[r] in s.phase[c].seen ==> !Early(s.phase[r])
    ensures |s.phase[c].seen| > cfg.retain ==> cfg.ids[c] != cfg.ids[r]
  {
    if cfg.ids[c] == cfg.ids[r] {
      SeenIsCovered(cfg, s, c, c, r);
    } else if cfg.ids[r] in s.phase[c].seen && Early(s.phase[r]) {
      if cfg.ids[r] in cfg.leftovers {
        SeenIsCovered(cfg, s, c, r, c);
      } else {
        var o :| o in cfg.ids && !Early(s.phase[o]) && cfg.ids[o] == cfg.ids[r];
        SeenIsCovered(cfg, s, c, r, o);
      }
    }
  }

  /** A step of the cleaning request itself. */
  lemma CleanerStep(cfg: Config, s: State, a: Action, r: Request)
    requires DirInv(cfg, s) && Enabled(cfg, s, a) && r in cfg.ids && a.r != r
    requires Live(s, r) ==> InUse(s.registry, s.running, cfg.ids[r])
    requires a.Choose? && a.chosen != {} ==>
               cfg.ids[a.r] != cfg.ids[r] && (cfg.ids[r] in s.phase[a.r].seen ==> !Early(s.phase[r]))
    ensures CleanupApart(cfg, Do(cfg, s, a), a.r, r)
  {
    assert CleanupApart(cfg, s, a.r, r);
  }

  lemma CleanupApartStep(cfg: Config, s: State, a: Action, c: Request, r: Request)
    requires Covered(cfg) && Inv(cfg, s) && DirInv(cfg, s) && Enabled(cfg, s, a)
    requires c in cfg.ids && r in cfg.ids && c != r
    ensures CleanupApart(cfg, Do(cfg, s, a), c, r)
  {
    assert CleanupApart(cfg, s, c, r);
    if a.r == c {
      if Live(s, r) { LiveIsInUse(cfg, s, r); }
      if a.Choose? && a.chosen != {} {
        ChooseApart(cfg, s, c, r);
      }
      CleanerStep(cfg, s, a, r);
    } else {
      OwnerStep(cfg, s, a, r);
    }
  }

  /** The directory of an early request that shares its id with a failed launch stays. */
  lemma UndoKeepsDir(cfg: Config, s: State, a: Action, c: Request, r: Request)
    requires DirInv(cfg, s) && Enabled(cfg, s, a) && c in cfg.ids && r in cfg.ids && c != r && a.r != c
    requires cfg.ids[c] == cfg.ids[r] && s.phase[c].Undoing? && Early(s.phase[r])
    ensures cfg.ids[r] in NextDirs(cfg, s, a)
  {
    assert UndoApart(cfg, s, c, r);
    if a.r == r {
      assert CleanupApart(cfg, s, r, c);
    } else {
      assert CleanupApart(cfg, s, a.r, r) && UndoApart(cfg, s, c, a.r);
    }
  }

  lemma UndoApartStep(cfg: Config, s: State, a: Action, c: Request, r: Request)
    requires Inv(cfg, s) && DirInv(cfg, s) && Enabled(cfg, s, a)
    requires c in cfg.ids && r in cfg.ids && c != r
    ensures UndoApart(cfg, Do(cfg, s, a), c, r)
  {
    var s' := Do(cfg, s, a);
    assert UndoApart(cfg, s, c, r) && UndoApart(cfg, s, r, c);
    if cfg.ids[c] == cfg.ids[r] && s'.phase[c].Undoing? {
      if a.r == c {
        if Live(s, c) {
          assert OwnDir(cfg, s, c);
          if Live(s, r) { OneLivePerId(cfg, s, c, r); }
        }
      } else {
        OwnerStep(cfg, s, a, r);
        if Early(s.phase[r]) { UndoKeepsDir(cfg, s, a, c, r); }
      }
    }
  }

  lemma OwnDirStep(cfg: Config, s: State, a: Action, r: Request)
    requires DirInv(cfg, s) && Enabled(cfg, s, a)
    requires r in cfg.ids && Live(Do(cfg, s, a), r)
    ensures OwnDir(cfg, Do(cfg, s, a), r)
  {
    if a.r != r {
      assert CleanupApart(cfg, s, a.r, r) && UndoApart(cfg, s, a.r, r);
      assert Live(s, r);
    }
  }

  lemma DirInvStep(cfg: Config, s: State, a: Action)
    requires Covered(cfg) && Inv(cfg, s) && DirInv(cfg, s) && Enabled(cfg, s, a)
    ensures DirInv(cfg, Do(cfg, s, a))
  {
    var s' := Do(cfg, s, a);
    MadeGrows(cfg, s, a);
    SeenStep(cfg, s, a);
    forall c, r | c in cfg.ids && r in cfg.ids && c != r
      ensures CleanupApart(cfg, s', c, r) && UndoApart(cfg, s', c, r)
    {
      CleanupApartStep(cfg, s, a, c, r);
      UndoApartStep(cfg, s, a, c, r);
    }
    forall r | r in cfg.ids && Live(s', r) ensures OwnDir(cfg, s', r) {
      OwnDirStep(cfg, s, a, r);
    }
  }

  lemma SeenStep(cfg: Config, s: State, a: Action)
    requires DirInv(cfg, s) && Enabled(cfg, s, a) && Made(cfg, s) <= Made(cfg, Do(cfg, s, a))
    ensures var s' := Do(cfg, s, a);
            && s'.dirs.Keys <= Made(cfg, s')
            && forall c | c in cfg.ids && s'.phase[c].Listing? :: s'.phase[c].seen <= Made(cfg, s')
  {
    var s' := Do(cfg, s, a);
    assert a.Mkdir? && cfg.ids[a.r] !in s.dirs ==> !Early(s'.phase[a.r]) && cfg.ids[a.r] in Made(cfg, s');
  }

  lemma {:induction false} DirInvExec(cfg: Config, s: State, schedule: seq<Action>)
    requires Covered(cfg) && Inv(cfg, s) && DirInv(cfg, s)
    ensures Exec(cfg, s, schedule).Some? ==>
              Inv(cfg, Exec(cfg, s, schedule).value) && DirInv(cfg, Exec(cfg, s, schedule).value)
    decreases |schedule|
  {
    if schedule != [] && Enabled(cfg, s, schedule[0]) {
      DirInvStep(cfg, s, schedule[0]);
      InvExec(cfg, s, [schedule[0]]);
      assert Exec(cfg, s, [schedule[0]]) == Some(Do(cfg, s, schedule[0]));
      DirInvExec(cfg, Do(cfg, s, schedule[0]), schedule[1..]);
    }
  }

  lemma InitInv(cfg: Config)
    ensures Inv(cfg, Init(cfg)) && DirInv(cfg, Init(cfg))
  {
  }

  /** When shared ids are covered, no interleaving touches the directory of a run whose process
      still runs. */
  lemma CoveredIdsAreSafe(cfg: Config, s: State)
    requires Covered(cfg) && Reachable(cfg, s)
    ensures DirsSafe(cfg, s)
  {
    var schedule :| Exec(cfg, Init(cfg), schedule) == Some(s);
    InitInv(cfg);
    DirInvExec(cfg, Init(cfg), schedule);
    forall r | r in s.running ensures r in cfg.ids && OwnDir(cfg, s, r) {
      assert r in s.phase && Tracked(cfg, s, r);
      assert Live(s, r);
    }
  }

  /** In particular when nothing is shared, whatever the limit. */
  lemma UnsharedIdsAreSafe(cfg: Config, s: State)
    requires Unshared(cfg) && Reachable(cfg, s)
    ensures DirsSafe(cfg, s)
  {
    CoveredIdsAreSafe(cfg, s);
  }

  // ---- Shared ids: the schedules that delete a running run's directory ---------------------

  lemma {:induction false} ExecAppend(cfg: Config, s: State, schedule: seq<Action>, a: Action)
    requires Exec(cfg, s, schedule).Some? && Enabled(cfg, Exec(cfg, s, schedule).value, a)
    ensures Exec(cfg, s, schedule + [a]) == Some(Do(cfg, Exec(cfg, s, schedule).value, a))
    decreases |schedule|
  {
    if schedule == [] {
      assert Exec(cfg, Do(cfg, s, a), []) == Some(Do(cfg, s, a));
      assert (schedule + [a])[1..] == [];
    } else {
      assert (schedule + [a])[1..] == schedule[1..] + [a];
      ExecAppend(cfg, Do(cfg, s, schedule[0]), schedule[1..], a);
    }
  }

  lemma Take(cfg: Config, s: State, a: Action) returns (s': State)
    requires Reachable(cfg, s) && Enabled(cfg, s, a)
    ensures s' == Do(cfg, s, a) && Reachable(cfg, s')
  {
    s' := Do(cfg, s, a);
    var schedule :| Exec(cfg, Init(cfg), schedule) == Some(s);
    ExecAppend(cfg, Init(cfg), schedule, a);
  }

  lemma ListAll(cfg: Config, s: State, c: Request) returns (s': State)
    requires Reachable(cfg, s) && c in cfg.ids && c in s.phase && s.phase[c].Validating?
    ensures Reachable(cfg, s') && s' == s.(phase := s.phase[c := Listing(s.dirs.Keys)])
  {
    s' := Take(cfg, s, BeginCleanup(c));
    s' := Take(cfg, s', See(c, s.dirs.Keys));
    assert s'.phase[c].seen == s.dirs.Keys;
    assert s'.phase == s.phase[c := Listing(s.dirs.Keys)];
  }

  /** A cleanup that lists everything can come to delete any directory not in use, when there are
      more directories than it retains. */
  lemma SweepTo(cfg: Config, s: State, c: Request, x: RunId) returns (s': State)
    requires Reachable(cfg, s) && c in cfg.ids && c in s.phase && s.phase[c].Validating?
    requires x in s.dirs && !InUse(s.registry, s.running, x) && |s.dirs.Keys| > cfg.retain
    ensures Reachable(cfg, s')
    ensures s' == s.(registry := Unregister(s.registry, x), phase := s.phase[c := Deleting({}, x)])
  {
    s' := ListAll(cfg, s, c);
    assert |{x}| == 1;
    s' := Take(cfg, s', Choose(c, {x}));
    s' := Take(cfg, s', Check(c, x));
    assert {x} - {x} == {};
    assert s'.phase == s.phase[c := Deleting({}, x)];
  }

  lemma ClaimNow(cfg: Config, s: State, r: Request) returns (s': State)
    requires Reachable(cfg, s) && r in cfg.ids && r in s.phase && s.phase[r] == Sweeping({})
    requires !s.registry.Knows(cfg.ids[r])
    ensures Reachable(cfg, s')
    ensures s' == s.(registry := Registry(s.registry.runs, s.registry.reserved + {cfg.ids[r]}),
                     phase := s.phase[r := Reserved])
  {
    s' := Take(cfg, s, EndCleanup(r));
    s' := Take(cfg, s', Claim(r));
    assert s'.phase == s.phase[r := Reserved];
  }

  lemma MakeDir(cfg: Config, s: State, r: Request) returns (s': State)
    requires Reachable(cfg, s) && r in cfg.ids && r in s.phase && s.phase[r] == Sweeping({})
    requires !s.registry.Knows(cfg.ids[r]) && cfg.ids[r] !in s.dirs
    ensures Reachable(cfg, s')
    ensures s' == State(Registry(s.registry.runs, s.registry.reserved + {cfg.ids[r]}),
                        s.dirs[cfg.ids[r] := Dir(By(r), true)], s.phase[r := Created], s.running)
  {
    s' := ClaimNow(cfg, s, r);
    s' := Take(cfg, s', Mkdir(r));
    assert s'.phase == s.phase[r := Created];
  }

  lemma FinishDelete(cfg: Config, s: State, l: Request) returns (s': State)
    requires Reachable(cfg, s) && l in cfg.ids && l in s.phase && s.phase[l].Deleting?
    ensures Reachable(cfg, s')
    ensures s' == s.(dirs := s.dirs - {s.phase[l].target}, phase := s.phase[l := Sweeping(s.phase[l].rest)])
  {
    s' := Take(cfg, s, EndErase(l, true));
  }

  /** A delete under way can end on a run that has just started. */
  lemma StartUnderDelete(cfg: Config, s: State, c: Request, l: Request) returns (s': State)
    requires Reachable(cfg, s) && c != l && c in cfg.ids && l in cfg.ids && s.phase.Keys == cfg.ids.Keys
    requires Target(cfg, c, s.phase[c]) == Some(cfg.ids[l]) && s.phase[l].Created?
    ensures Reachable(cfg, s') && !DirsSafe(cfg, s')
  {
    s' := Take(cfg, s, Spawn(l));
    assert l in s'.running;
    s' := Take(cfg, s', EndErase(c, true));
    assert l in s'.running && !OwnDir(cfg, s', l);
  }

  /** While `c` is deleting `x`, request `l` can delete `x` too and launch a run of that name;
      the delete of `c` then ends on the directory of the new run. */
  lemma DeleteOutlivesRelaunch(cfg: Config, s: State, c: Request, l: Request) returns (s': State)
    requires Reachable(cfg, s) && c != l && c in cfg.ids && l in cfg.ids && s.phase.Keys == cfg.ids.Keys
    requires Target(cfg, c, s.phase[c]) == Some(cfg.ids[l]) && s.phase[l].Validating?
    requires cfg.ids[l] in s.dirs && !s.registry.Knows(cfg.ids[l]) && |s.dirs.Keys| > cfg.retain
    ensures Reachable(cfg, s') && !DirsSafe(cfg, s')
  {
    s' := SweepTo(cfg, s, l, cfg.ids[l]);
    s' := FinishDelete(cfg, s', l);
    s' := MakeDir(cfg, s', l);
    s' := StartUnderDelete(cfg, s', c, l);
  }

  lemma FailSpawn(cfg: Config, s: State, q: Request) returns (s': State)
    requires Reachable(cfg, s) && q in cfg.ids && q in s.phase && s.phase[q].Created?
    ensures Reachable(cfg, s')
    ensures s' == s.(registry := s.registry.Discard(cfg.ids[q]), phase := s.phase[q := Undoing])
  {
    s' := Take(cfg, s, SpawnError(q));
    s' := Take(cfg, s', GiveBack(q));
    assert s'.phase == s.phase[q := Undoing];
  }

  lemma SkipCleanup(cfg: Config, s: State, q: Request) returns (s': State)
    requires Reachable(cfg, s) && q in cfg.ids && q in s.phase && s.phase[q].Validating?
    ensures Reachable(cfg, s') && s' == s.(phase := s.phase[q := Sweeping({})])
  {
    s' := Take(cfg, s, BeginCleanup(q));
    s' := Take(cfg, s', Choose(q, {}));
    assert s'.phase == s.phase[q := Sweeping({})];
  }

  /** A launch whose process does not start, stopped just before it deletes its directory. */
  lemma FailedLaunch(cfg: Config, s: State, q: Request) returns (s': State)
    requires Reachable(cfg, s) && q in cfg.ids && q in s.phase && s.phase[q].Validating?
    requires !s.registry.Knows(cfg.ids[q]) && cfg.ids[q] !in s.dirs
    ensures Reachable(cfg, s') && s'.phase == s.phase[q := Undoing]
    ensures s'.registry == s.registry && s'.dirs.Keys == s.dirs.Keys + {cfg.ids[q]}
  {
    s' := SkipCleanup(cfg, s, q);
    s' := MakeDir(cfg, s', q);
    s' := FailSpawn(cfg, s', q);
  }

  /** Only directories are there that are leftovers or just made by a request in `todo`. */
  ghost predicate Filled(cfg: Config, s: State, todo: set<Request>, x: RunId) {
    && Reachable(cfg, s) && s.phase.Keys == cfg.ids.Keys
    && (forall r | r in cfg.ids && r !in todo :: s.phase[r].Validating?)
    && s.registry.runs == map[] && s.registry.reserved <= s.dirs.Keys - {x}
    && s.dirs.Keys == cfg.leftovers + set o | o in cfg.ids && o in todo && cfg.ids[o] != x :: cfg.ids[o]
  }

  /** The requests of `todo` can first make their directories, save those for `x`. */
  lemma Fill(cfg: Config, todo: set<Request>, x: RunId) returns (s: State)
    requires todo <= cfg.ids.Keys
    ensures Filled(cfg, s, todo, x)
  {
    if todo == {} {
      s := Init(cfg);
      assert Exec(cfg, s, []) == Some(s);
    } else {
      var o :| o in todo;
      s := Fill(cfg, todo - {o}, x);
      s := FillOne(cfg, s, todo, o, x);
    }
  }

  lemma FillOne(cfg: Config, s: State, todo: set<Request>, o: Request, x: RunId) returns (s': State)
    requires o in todo && o in cfg.ids && Filled(cfg, s, todo - {o}, x)
    ensures Filled(cfg, s', todo, x)
  {
    if cfg.ids[o] == x || cfg.ids[o] in s.dirs {
      s' := s;
    } else {
      s' := SkipCleanup(cfg, s, o);
      s' := MakeDir(cfg, s', o);
    }
  }

  /** The directories around a shared id, when the others have made theirs. */
  lemma FilledAround(cfg: Config, s: State, r: Request, q: Request)
    requires r in cfg.ids && Filled(cfg, s, cfg.ids.Keys - {r, q}, cfg.ids[r])
    ensures s.dirs.Keys + {cfg.ids[r]} == Around(cfg, r, q)
  {
  }

  /** Request `q` comes to delete the directory `r` asks for, in a cleanup or after a failed launch. */
  lemma FirstDelete(cfg: Config, s: State, r: Request, q: Request) returns (s': State)
    requires Shares(cfg, r, q) && Reachable(cfg, s) && s.phase.Keys == cfg.ids.Keys
    requires s.phase[r].Validating? && s.phase[q].Validating?
    requires !s.registry.Knows(cfg.ids[r]) && |s.dirs.Keys + {cfg.ids[r]}| > cfg.retain
    requires cfg.ids[r] in cfg.leftovers <==> cfg.ids[r] in s.dirs
    ensures Reachable(cfg, s') && s'.phase.Keys == cfg.ids.Keys && s'.phase[r].Validating?
    ensures Target(cfg, q, s'.phase[q]) == Some(cfg.ids[r]) && !s'.registry.Knows(cfg.ids[r])
    ensures s'.dirs.Keys == s.dirs.Keys + {cfg.ids[r]}
  {
    if cfg.ids[r] in cfg.leftovers {
      assert s.dirs.Keys + {cfg.ids[r]} == s.dirs.Keys;
      s' := SweepTo(cfg, s, q, cfg.ids[r]);
    } else {
      s' := FailedLaunch(cfg, s, q);
    }
  }

  /** A shared id that the limit does not cover lets a schedule delete a running run's directory. */
  lemma UncoveredIdsAreUnsafe(cfg: Config) returns (s: State)
    requires !Covered(cfg)
    ensures Reachable(cfg, s) && !DirsSafe(cfg, s)
  {
    var r, q :| Shares(cfg, r, q) && |Around(cfg, r, q)| > cfg.retain;
    s := Fill(cfg, cfg.ids.Keys - {r, q}, cfg.ids[r]);
    FilledAround(cfg, s, r, q);
    s := FirstDelete(cfg, s, r, q);
    s := DeleteOutlivesRelaunch(cfg, s, q, r);
  }

  /** The exact condition, for every configuration. */
  lemma SafeExactlyWhenCovered(cfg: Config)
    ensures (forall s :: Reachable(cfg, s) ==> DirsSafe(cfg, s)) <==> Covered(cfg)
  {
    if Covered(cfg) {
      forall s | Reachable(cfg, s) ensures DirsSafe(cfg, s) {
        CoveredIdsAreSafe(cfg, s);
      }
    } else {
      var s := UncoveredIdsAreUnsafe(cfg);
    }
  }
}
