/**
 All interleavings of operations on any number of NVUE clients. An operation that replaces a
 transport holds its client's reconfiguration lock until it ends; a preparation and an
 activation await the network while they hold it, and may be cancelled there.
 */
module ClientSystem {
  import opened Text
  import opened ClientState

  type ClientId = nat
  type Caller = nat

  /** `history` has every state the client has held, oldest first; the last one is current. */
  datatype Record = Record(history: seq<State>, holder: Option<Caller>)

  /** A candidate, the place in its owner's history it was prepared from, and what it was prepared for. */
  datatype Stored = Stored(candidate: Candidate, base: nat, request: ClientState.Request, loaded: Fingerprint)

  datatype Job =
    | Preparing(client: ClientId, request: ClientState.Request, base: nat)
    | Activating(client: ClientId, which: nat, current: bool)

  /** Candidate `which` replaced the state at `at` in the history of `client`. */
  datatype Activation = Activation(client: ClientId, which: nat, at: nat)

  datatype System = System(
    clients: map<ClientId, Record>,
    jobs: map<Caller, Job>,
    stored: seq<Stored>,
    log: seq<Activation>)

  datatype Action =
    | Create(c: ClientId, how: Construction, settings: Settings)
    | Clone(source: ClientId, c: ClientId, creds: Credentials)
    | Change(c: ClientId, change: ClientState.Change)
    | BeginPrepare(t: Caller, c: ClientId, request: ClientState.Request)
    | EndPrepare(t: Caller, loaded: Option<Fingerprint>, works: bool)
    | BeginActivate(t: Caller, c: ClientId, which: nat)
    | EndActivate(t: Caller, probe: bool)
    | Cancel(t: Caller)

  const EMPTY := System(map[], map[], [], [])

  function Current(r: Record): State
    requires r.history != []
  {
    r.history[|r.history| - 1]
  }

  predicate Free(s: System, c: ClientId) {
    c in s.clients && s.clients[c].history != [] && s.clients[c].holder.None?
  }

  predicate Enabled(names: Names, s: System, a: Action) {
    match a
    case Create(c, how, settings) => c !in s.clients && Construct(names, how, settings).Some?
    case Clone(source, c, _) => source in s.clients && c !in s.clients && s.clients[source].history != []
    case Change(c, _) => Free(s, c)
    case BeginPrepare(t, c, _) => t !in s.jobs && Free(s, c)
    case EndPrepare(t, _, _) =>
      t in s.jobs && s.jobs[t].Preparing? && s.jobs[t].client in s.clients
      && s.jobs[t].base < |s.clients[s.jobs[t].client].history|
    case BeginActivate(t, c, which) => t !in s.jobs && Free(s, c) && which < |s.stored|
    case EndActivate(t, _) =>
      t in s.jobs && s.jobs[t].Activating? && s.jobs[t].client in s.clients && s.jobs[t].which < |s.stored|
      && s.clients[s.jobs[t].client].history != []
    case Cancel(t) => t in s.jobs && s.jobs[t].client in s.clients
  }

  function Hold(s: System, t: Caller, job: Job): System
    requires job.client in s.clients
  {
    s.(clients := s.clients[job.client := s.clients[job.client].(holder := Some(t))], jobs := s.jobs[t := job])
  }

  function Release(s: System, t: Caller): System
    requires t in s.jobs && s.jobs[t].client in s.clients
  {
    var c := s.jobs[t].client;
    s.(clients := s.clients[c := s.clients[c].(holder := None)], jobs := s.jobs - {t})
  }

  function Commit(s: System, c: ClientId, st: State): System
    requires c in s.clients
  {
    s.(clients := s.clients[c := s.clients[c].(history := s.clients[c].history + [st])])
  }

  function Do(names: Names, s: System, a: Action): System
    requires Enabled(names, s, a)
  {
    match a
    case Create(c, how, settings) =>
      s.(clients := s.clients[c := Record([Construct(names, how, settings).value], None)])
    case Clone(source, c, creds) =>
      s.(clients := s.clients[c := Record([WithCredentials(Current(s.clients[source]), creds)], None)])
    case Change(c, change) =>
      var o := Reconfigure(names, Current(s.clients[c]), change);
      if o.Committed? then Commit(s, c, o.state) else s
    case BeginPrepare(t, c, q) => Hold(s, t, Preparing(c, q, |s.clients[c].history| - 1))
    case EndPrepare(t, loaded, works) => Release(StoreCandidate(names, s, t, loaded, works), t)
    case BeginActivate(t, c, which) =>
      var adm := Admit(c, Current(s.clients[c]), s.stored[which].candidate);
      if adm.RefuseForeign? || adm.RefuseStale? then s
      else Hold(s, t, Activating(c, which, adm.AdmitFresh?))
    case EndActivate(t, probe) =>
      var j := s.jobs[t];
      if probe && j.current then CommitCandidate(Release(s, t), j) else Release(s, t)
    case Cancel(t) => Release(s, t)
  }

  function StoreCandidate(names: Names, s: System, t: Caller, loaded: Option<Fingerprint>, works: bool): System
    requires Enabled(names, s, EndPrepare(t, loaded, works))
  {
    var j := s.jobs[t];
    var r := s.clients[j.client];
    match Prepare(names, j.client, r.history[j.base], Current(r), j.request, loaded, works)
    case None => s
    case Some(p) => s.(stored := s.stored + [Stored(p, j.base, j.request, if loaded.Some? then loaded.value else "")])
  }

  function CommitCandidate(s: System, j: Job): System
    requires j.Activating? && j.client in s.clients && s.clients[j.client].history != [] && j.which < |s.stored|
  {
    var r := s.clients[j.client];
    Commit(s, j.client, Activate(Current(r), s.stored[j.which].candidate))
    .(log := s.log + [Activation(j.client, j.which, |r.history| - 1)])
  }

  function Exec(names: Names, s: System, run: seq<Action>): Option<System>
    decreases |run|
  {
    if run == [] then Some(s)
    else if Enabled(names, s, run[0]) then Exec(names, Do(names, s, run[0]), run[1..])
    else None
  }

  ghost predicate Reachable(names: Names, s: System) {
    exists run :: Exec(names, EMPTY, run) == Some(s)
  }

  // ---- Invariants ---------------------------------------------------------------------------

  predicate SameTarget(a: State, b: State) {
    && a.scheme == b.scheme
    && a.settings.endpoint.scheme == b.settings.endpoint.scheme
    && a.settings.endpoint.connectHost == b.settings.endpoint.connectHost
    && a.settings.endpoint.port == b.settings.endpoint.port
  }

  /** The revision after `i` commits. */
  function RevisionAt(first: nat, i: nat): nat {
    if i == 0 then first else NextRevision(RevisionAt(first, i - 1))
  }

  lemma {:induction false} RevisionAtIsModular(first: nat, i: nat)
    requires first < REVISIONS
    ensures RevisionAt(first, i) == (first + i) % REVISIONS
  {
    if i > 0 {
      RevisionAtIsModular(first, i - 1);
      ModStep(first + i - 1);
    }
  }

  /** Commits count the revision up, and none of them moves the client to another target. */
  ghost predicate HistoryOk(h: seq<State>) {
    && h != [] && h[0].revision < REVISIONS
    && (forall i | 0 <= i < |h| :: h[i].revision == RevisionAt(h[0].revision, i))
    && (forall i | 0 <= i < |h| :: SameTarget(h[i], h[0]))
  }

  ghost predicate StoredOk(s: System, x: Stored) {
    && x.candidate.owner in s.clients
    && var h := s.clients[x.candidate.owner].history;
       && x.base < |h|
       && x.candidate.basedOn == h[x.base].revision
       && DerivedFrom(x.candidate.settings, h[x.base].settings)
       && AsRequested(x.candidate, x.request, h[x.base].settings, x.loaded)
  }

  /** The lock of a client is held by exactly the caller whose job works on it; an activation that
      will commit still sees the revision its candidate was prepared from, and one that will not sees
      the candidate's generation active. */
  ghost predicate JobOk(s: System, t: Caller, j: Job) {
    && j.client in s.clients && s.clients[j.client].holder == Some(t) && s.clients[j.client].history != []
    && match j
       case Preparing(c, _, base) => base == |s.clients[c].history| - 1
       case Activating(c, which, current) =>
         which < |s.stored|
         && (current ==> s.stored[which].candidate.owner == c
                         && s.stored[which].candidate.basedOn == Current(s.clients[c]).revision)
         && (!current ==> Active(Current(s.clients[c]), s.stored[which].candidate))
  }

  /** The client talks with the identity, authority, verification and files of the candidate. */
  predicate Active(st: State, p: Candidate) {
    st.generation == p.generation && st.tls == Some(p.tls)
  }

  ghost predicate LogOk(s: System, e: Activation) {
    && e.client in s.clients && e.which < |s.stored|
    && var x := s.stored[e.which];
       var h := s.clients[e.client].history;
       && x.candidate.owner == e.client
       && x.base <= e.at < |h| - 1
       && h[e.at].revision == x.candidate.basedOn
       && h[e.at + 1] == Activate(h[e.at], x.candidate)
  }

  ghost predicate Inv(s: System) {
    && (forall c | c in s.clients :: HistoryOk(s.clients[c].history))
    && (forall i | 0 <= i < |s.stored| :: StoredOk(s, s.stored[i]))
    && (forall t | t in s.jobs :: JobOk(s, t, s.jobs[t]))
    && (forall k | 0 <= k < |s.log| :: LogOk(s, s.log[k]))
  }

  /** Histories and candidates only grow. */
  ghost predicate Extends(s: System, s': System) {
    && s.clients.Keys <= s'.clients.Keys
    && (forall c | c in s.clients :: s.clients[c].history <= s'.clients[c].history)
    && s.stored <= s'.stored
  }

  lemma StoredKept(s: System, s': System, x: Stored)
    requires Extends(s, s') && StoredOk(s, x)
    ensures StoredOk(s', x)
  {
    var c := x.candidate.owner;
    assert s.clients[c].history <= s'.clients[c].history;
  }

  lemma LogKept(s: System, s': System, e: Activation)
    requires Extends(s, s') && LogOk(s, e)
    ensures LogOk(s', e)
  {
    var c := e.client;
    assert s.clients[c].history <= s'.clients[c].history;
    assert s.stored[e.which] == s'.stored[e.which];
  }

  /** What holds of candidates and log survives any growth that adds none. */
  lemma GrowthKeeps(s: System, s': System)
    requires Inv(s) && Extends(s, s') && s'.stored == s.stored && s'.log == s.log
    ensures forall i | 0 <= i < |s'.stored| :: StoredOk(s', s'.stored[i])
    ensures forall k | 0 <= k < |s'.log| :: LogOk(s', s'.log[k])
  {
    forall i | 0 <= i < |s.stored| ensures StoredOk(s', s.stored[i]) { StoredKept(s, s', s.stored[i]); }
    forall k | 0 <= k < |s.log| ensures LogOk(s', s.log[k]) { LogKept(s, s', s.log[k]); }
  }

  lemma HistoryGrows(h: seq<State>, st: State)
    requires HistoryOk(h)
    requires SameTarget(st, h[|h| - 1]) && st.revision == NextRevision(h[|h| - 1].revision)
    ensures HistoryOk(h + [st])
  {
  }

  lemma ModStep(n: nat)
    ensures (n % REVISIONS + 1) % REVISIONS == (n + 1) % REVISIONS
  {
  }

  lemma RevisionInRange(h: seq<State>)
    requires HistoryOk(h)
    ensures h[|h| - 1].revision < REVISIONS
  {
    RevisionAtIsModular(h[0].revision, |h| - 1);
  }

  lemma AddKeepsInv(s: System, c: ClientId, st: State)
    requires Inv(s) && c !in s.clients && st.revision < REVISIONS
    ensures Inv(s.(clients := s.clients[c := Record([st], None)]))
  {
    var s' := s.(clients := s.clients[c := Record([st], None)]);
    GrowthKeeps(s, s');
    forall t | t in s'.jobs ensures JobOk(s', t, s'.jobs[t]) { assert JobOk(s, t, s.jobs[t]); }
  }

  lemma HoldKeepsInv(s: System, t: Caller, job: Job)
    requires Inv(s) && t !in s.jobs && Free(s, job.client)
    requires JobOk(s.(clients := s.clients[job.client := s.clients[job.client].(holder := Some(t))]), t, job)
    ensures Inv(Hold(s, t, job))
  {
    var s' := Hold(s, t, job);
    GrowthKeeps(s, s');
    forall u | u in s'.jobs ensures JobOk(s', u, s'.jobs[u]) {
      if u != t { assert JobOk(s, u, s.jobs[u]); }
    }
  }

  lemma ReleaseKeepsInv(s: System, t: Caller)
    requires Inv(s) && t in s.jobs
    ensures s.jobs[t].client in s.clients && Inv(Release(s, t))
  {
    assert JobOk(s, t, s.jobs[t]);
    var s' := Release(s, t);
    GrowthKeeps(s, s');
    forall u | u in s'.jobs ensures JobOk(s', u, s'.jobs[u]) {
      assert JobOk(s, u, s.jobs[u]);
    }
  }

  lemma CommitKeepsInv(s: System, c: ClientId, st: State)
    requires Inv(s) && Free(s, c)
    requires SameTarget(st, Current(s.clients[c])) && st.revision == NextRevision(Current(s.clients[c]).revision)
    ensures Inv(Commit(s, c, st))
  {
    var s' := Commit(s, c, st);
    GrowthKeeps(s, s');
    assert HistoryOk(s.clients[c].history);
    HistoryGrows(s.clients[c].history, st);
    forall t | t in s'.jobs ensures JobOk(s', t, s'.jobs[t]) { assert JobOk(s, t, s.jobs[t]); }
  }

  lemma StoreKeepsInv(s: System, x: Stored)
    requires Inv(s) && StoredOk(s, x)
    ensures Inv(s.(stored := s.stored + [x]))
  {
    var s' := s.(stored := s.stored + [x]);
    forall i | 0 <= i < |s'.stored| ensures StoredOk(s', s'.stored[i]) { StoredKept(s, s', s'.stored[i]); }
    forall k | 0 <= k < |s.log| ensures LogOk(s', s.log[k]) { LogKept(s, s', s.log[k]); }
    forall t | t in s'.jobs ensures JobOk(s', t, s'.jobs[t]) { assert JobOk(s, t, s.jobs[t]); }
  }

  lemma CandidateTarget(s: System, t: Caller)
    requires Inv(s) && t in s.jobs && s.jobs[t].Activating? && s.jobs[t].current
    ensures var j := s.jobs[t];
            j.client in s.clients && s.clients[j.client].history != [] && j.which < |s.stored|
            && StoredOk(s, s.stored[j.which])
            && SameTarget(Activate(Current(s.clients[j.client]), s.stored[j.which].candidate),
                          Current(s.clients[j.client]))
  {
    var j := s.jobs[t];
    assert JobOk(s, t, j);
    assert StoredOk(s, s.stored[j.which]);
    var h := s.clients[j.client].history;
    assert HistoryOk(h);
    assert SameTarget(h[s.stored[j.which].base], h[0]) && SameTarget(h[|h| - 1], h[0]);
  }

  lemma ReleasedClient(s: System, t: Caller)
    requires t in s.jobs && JobOk(s, t, s.jobs[t])
    ensures var c := s.jobs[t].client;
            && Free(Release(s, t), c)
            && Current(Release(s, t).clients[c]) == Current(s.clients[c])
            && Release(s, t).stored == s.stored
  {
  }

  lemma ActivateKeepsInv(s: System, t: Caller)
    requires Inv(s) && t in s.jobs && s.jobs[t].Activating? && s.jobs[t].current && JobOk(s, t, s.jobs[t])
    ensures Inv(CommitCandidate(Release(s, t), s.jobs[t]))
  {
    CandidateTarget(s, t);
    ReleasedClient(s, t);
    ReleaseKeepsInv(s, t);
    ActivateFree(Release(s, t), s.jobs[t]);
  }

  lemma ActivateFree(s: System, j: Job)
    requires Inv(s) && j.Activating? && Free(s, j.client) && j.which < |s.stored|
    requires var p := s.stored[j.which].candidate;
             p.owner == j.client && p.basedOn == Current(s.clients[j.client]).revision
             && SameTarget(Activate(Current(s.clients[j.client]), p), Current(s.clients[j.client]))
    ensures Inv(CommitCandidate(s, j))
  {
    var h := s.clients[j.client].history;
    var st := Activate(Current(s.clients[j.client]), s.stored[j.which].candidate);
    assert StoredOk(s, s.stored[j.which]);
    CommitKeepsInv(s, j.client, st);
    NewEntry(s, j, st);
    LogEntry(Commit(s, j.client, st), Activation(j.client, j.which, |h| - 1));
  }

  lemma NewEntry(s: System, j: Job, st: State)
    requires j.Activating? && Free(s, j.client) && j.which < |s.stored| && StoredOk(s, s.stored[j.which])
    requires var p := s.stored[j.which].candidate;
             p.owner == j.client && p.basedOn == Current(s.clients[j.client]).revision
             && st == Activate(Current(s.clients[j.client]), p)
    ensures var e := Activation(j.client, j.which, |s.clients[j.client].history| - 1);
            var s' := Commit(s, j.client, st);
            LogOk(s', e) && CommitCandidate(s, j) == s'.(log := s'.log + [e])
  {
  }

  lemma LogEntry(s: System, e: Activation)
    requires Inv(s) && LogOk(s, e)
    ensures Inv(s.(log := s.log + [e]))
  {
    var s' := s.(log := s.log + [e]);
    GrowthKeeps(s, s'.(log := s.log));
    forall i | 0 <= i < |s'.stored| ensures StoredOk(s', s'.stored[i]) { assert StoredOk(s, s.stored[i]); }
    forall k | 0 <= k < |s'.log| ensures LogOk(s', s'.log[k]) { LogKept(s, s', s'.log[k]); }
    forall t | t in s'.jobs ensures JobOk(s', t, s'.jobs[t]) { assert JobOk(s, t, s.jobs[t]); }
  }

  lemma ChangeKeepsTarget(names: Names, st: State, change: ClientState.Change)
    ensures var o := Reconfigure(names, st, change);
            o.Committed? ==> SameTarget(o.state, st) && o.state.revision == NextRevision(st.revision)
  {
  }

  lemma PrepareStoredOk(names: Names, s: System, t: Caller, loaded: Option<Fingerprint>, works: bool)
    requires Inv(s) && Enabled(names, s, EndPrepare(t, loaded, works))
    ensures Inv(StoreCandidate(names, s, t, loaded, works))
  {
    var j := s.jobs[t];
    var r := s.clients[j.client];
    PrepareFacts(names, j.client, r.history[j.base], Current(r), j.request, loaded, works);
    var p := Prepare(names, j.client, r.history[j.base], Current(r), j.request, loaded, works);
    if p.Some? {
      StoreKeepsInv(s, Stored(p.value, j.base, j.request, loaded.value));
    }
  }

  lemma PrepareFacts(names: Names, owner: nat, base: State, now: State, q: ClientState.Request,
                     loaded: Option<Fingerprint>, works: bool)
    ensures var p := Prepare(names, owner, base, now, q, loaded, works);
            p.Some? ==> DerivedFrom(p.value.settings, base.settings)
                        && p.value.owner == owner && p.value.basedOn == base.revision
                        && loaded.Some? && AsRequested(p.value, q, base.settings, loaded.value)
  {
  }

  lemma ChangeKeepsInv(names: Names, s: System, c: ClientId, change: ClientState.Change)
    requires Inv(s) && Enabled(names, s, Action.Change(c, change))
    ensures Inv(Do(names, s, Action.Change(c, change)))
  {
    var o := Reconfigure(names, Current(s.clients[c]), change);
    ChangeKeepsTarget(names, Current(s.clients[c]), change);
    if o.Committed? {
      CommitKeepsInv(s, c, o.state);
    }
  }

  lemma BeginActivateKeepsInv(names: Names, s: System, t: Caller, c: ClientId, which: nat)
    requires Inv(s) && Enabled(names, s, BeginActivate(t, c, which))
    ensures Inv(Do(names, s, BeginActivate(t, c, which)))
  {
    var adm := Admit(c, Current(s.clients[c]), s.stored[which].candidate);
    if adm.AdmitFresh? || adm.AlreadyActive? {
      HoldKeepsInv(s, t, Activating(c, which, adm.AdmitFresh?));
    }
  }

  lemma EndActivateKeepsInv(names: Names, s: System, t: Caller, probe: bool)
    requires Inv(s) && Enabled(names, s, EndActivate(t, probe))
    ensures Inv(Do(names, s, EndActivate(t, probe)))
  {
    assert JobOk(s, t, s.jobs[t]);
    if probe && s.jobs[t].current {
      ActivateKeepsInv(s, t);
    } else {
      ReleaseKeepsInv(s, t);
    }
  }

  lemma InvStep(names: Names, s: System, a: Action)
    requires Inv(s) && Enabled(names, s, a)
    ensures Inv(Do(names, s, a))
  {
    match a {
      case Create(c, how, settings) =>
        AddKeepsInv(s, c, Construct(names, how, settings).value);
      case Clone(source, c, creds) =>
        RevisionInRange(s.clients[source].history);
        AddKeepsInv(s, c, WithCredentials(Current(s.clients[source]), creds));
      case Change(c, change) =>
        ChangeKeepsInv(names, s, c, change);
      case BeginPrepare(t, c, q) =>
        HoldKeepsInv(s, t, Preparing(c, q, |s.clients[c].history| - 1));
      case EndPrepare(t, loaded, works) =>
        PrepareStoredOk(names, s, t, loaded, works);
        ReleaseKeepsInv(StoreCandidate(names, s, t, loaded, works), t);
      case BeginActivate(t, c, which) =>
        BeginActivateKeepsInv(names, s, t, c, which);
      case EndActivate(t, probe) =>
        EndActivateKeepsInv(names, s, t, probe);
      case Cancel(t) =>
        ReleaseKeepsInv(s, t);
    }
  }

  lemma {:induction false} InvExec(names: Names, s: System, run: seq<Action>)
    requires Inv(s)
    ensures Exec(names, s, run).Some? ==> Inv(Exec(names, s, run).value)
    decreases |run|
  {
    if run != [] && Enabled(names, s, run[0]) {
      InvStep(names, s, run[0]);
      InvExec(names, Do(names, s, run[0]), run[1..]);
    }
  }

  lemma ReachableInv(names: Names, s: System)
    requires Reachable(names, s)
    ensures Inv(s)
  {
    var run :| Exec(names, EMPTY, run) == Some(s);
    InvExec(names, EMPTY, run);
  }

  // ---- Main results -------------------------------------------------------------------------

  /** Every state a client has held and every candidate prepared for it agree in their parts. */
  ghost predicate Sound(names: Names, s: System) {
    && (forall c | c in s.clients :: AllConsistent(names, s.clients[c].history))
    && (forall i | 0 <= i < |s.stored| :: Usable(names, s, s.stored[i].candidate))
  }

  ghost predicate AllConsistent(names: Names, h: seq<State>) {
    h != [] && forall st | st in h :: Consistent(names, st)
  }

  ghost predicate Usable(names: Names, s: System, p: Candidate) {
    && p.owner in s.clients && s.clients[p.owner].history != []
    && CandidateOk(names, p, s.clients[p.owner].history[0].scheme)
    && p.settings.endpoint.scheme == s.clients[p.owner].history[0].scheme
  }

  lemma UsableKept(names: Names, s: System, s': System)
    requires Sound(names, s) && Extends(s, s') && s'.stored == s.stored
    ensures forall i | 0 <= i < |s'.stored| :: Usable(names, s', s'.stored[i].candidate)
  {
    forall i | 0 <= i < |s.stored| ensures Usable(names, s', s.stored[i].candidate) {
      var p := s.stored[i].candidate;
      assert Usable(names, s, p);
      assert s.clients[p.owner].history <= s'.clients[p.owner].history;
    }
  }

  lemma CommitKeepsSound(names: Names, s: System, c: ClientId, st: State)
    requires Sound(names, s) && c in s.clients && Consistent(names, st)
    ensures Sound(names, Commit(s, c, st))
  {
    UsableKept(names, s, Commit(s, c, st));
  }

  lemma AddKeepsSound(names: Names, s: System, c: ClientId, st: State)
    requires Sound(names, s) && c !in s.clients && Consistent(names, st)
    ensures Sound(names, s.(clients := s.clients[c := Record([st], None)]))
  {
    UsableKept(names, s, s.(clients := s.clients[c := Record([st], None)]));
  }

  lemma RelockKeepsSound(names: Names, s: System, s': System)
    requires Sound(names, s) && s'.clients.Keys == s.clients.Keys && s'.stored == s.stored
    requires forall c | c in s.clients :: s'.clients[c].history == s.clients[c].history
    ensures Sound(names, s')
  {
    UsableKept(names, s, s');
  }

  lemma PrepareKeepsSound(names: Names, s: System, t: Caller, loaded: Option<Fingerprint>, works: bool)
    requires Inv(s) && Sound(names, s) && Enabled(names, s, EndPrepare(t, loaded, works))
    ensures Sound(names, StoreCandidate(names, s, t, loaded, works))
  {
    var j := s.jobs[t];
    var r := s.clients[j.client];
    var base := r.history[j.base];
    assert HistoryOk(r.history) && AllConsistent(names, r.history);
    assert Consistent(names, base) && SameTarget(base, r.history[0]);
    PrepareOk(names, j.client, base, Current(r), j.request, loaded, works);
    assert base.scheme == base.settings.endpoint.scheme;
    var p := Prepare(names, j.client, base, Current(r), j.request, loaded, works);
    if p.Some? {
      StoreKeepsSound(names, s, Stored(p.value, j.base, j.request, loaded.value));
    }
  }

  lemma StoreKeepsSound(names: Names, s: System, x: Stored)
    requires Sound(names, s) && Usable(names, s, x.candidate)
    ensures Sound(names, s.(stored := s.stored + [x]))
  {
    var s' := s.(stored := s.stored + [x]);
    forall i | 0 <= i < |s'.stored| ensures Usable(names, s', s'.stored[i].candidate) {
      assert i < |s.stored| ==> Usable(names, s, s.stored[i].candidate);
    }
  }

  lemma ActivateKeepsSound(names: Names, s: System, j: Job)
    requires Sound(names, s) && j.Activating? && j.which < |s.stored| && j.client in s.clients
    requires HistoryOk(s.clients[j.client].history) && s.stored[j.which].candidate.owner == j.client
    ensures Sound(names, CommitCandidate(s, j))
  {
    var p := s.stored[j.which].candidate;
    assert Usable(names, s, p);
    var st := Activate(Current(s.clients[j.client]), p);
    ActivateConsistent(names, Current(s.clients[j.client]), p);
    CommitKeepsSound(names, s, j.client, st);
    RelockKeepsSound(names, Commit(s, j.client, st), CommitCandidate(s, j));
  }

  lemma CurrentConsistent(names: Names, s: System, c: ClientId)
    requires Sound(names, s) && c in s.clients
    ensures s.clients[c].history != [] && Consistent(names, Current(s.clients[c]))
  {
    assert AllConsistent(names, s.clients[c].history);
  }

  lemma EndPrepareKeepsSound(names: Names, s: System, a: Action)
    requires Inv(s) && Sound(names, s) && Enabled(names, s, a) && a.EndPrepare?
    ensures Sound(names, Do(names, s, a))
  {
    PrepareKeepsSound(names, s, a.t, a.loaded, a.works);
    RelockKeepsSound(names, StoreCandidate(names, s, a.t, a.loaded, a.works), Do(names, s, a));
  }

  lemma EndActivateKeepsSound(names: Names, s: System, t: Caller, probe: bool)
    requires Inv(s) && Sound(names, s) && Enabled(names, s, EndActivate(t, probe))
    ensures Sound(names, Do(names, s, EndActivate(t, probe)))
  {
    var j := s.jobs[t];
    RelockKeepsSound(names, s, Release(s, t));
    assert JobOk(s, t, j) && HistoryOk(s.clients[j.client].history);
    if probe && j.current {
      ReleasedClient(s, t);
      assert Release(s, t).clients[j.client].history == s.clients[j.client].history;
      ActivateKeepsSound(names, Release(s, t), j);
    }
  }

  /** Steps that only take or give back a lock. */
  lemma LockStepKeepsSound(names: Names, s: System, a: Action)
    requires Sound(names, s) && Enabled(names, s, a) && (a.BeginPrepare? || a.BeginActivate? || a.Cancel?)
    ensures Sound(names, Do(names, s, a))
  {
    RelockKeepsSound(names, s, Do(names, s, a));
  }

  /** Steps that make or change a client at once. */
  lemma ClientStepKeepsSound(names: Names, s: System, a: Action)
    requires Sound(names, s) && Enabled(names, s, a) && (a.Create? || a.Clone? || a.Change?)
    ensures Sound(names, Do(names, s, a))
  {
    match a {
      case Create(c, how, settings) =>
        ConstructConsistent(names, how, settings);
        AddKeepsSound(names, s, c, Construct(names, how, settings).value);
      case Clone(source, c, creds) =>
        CurrentConsistent(names, s, source);
        CloneConsistent(names, Current(s.clients[source]), creds);
        AddKeepsSound(names, s, c, WithCredentials(Current(s.clients[source]), creds));
      case Change(c, change) =>
        CurrentConsistent(names, s, c);
        ReconfigureConsistent(names, Current(s.clients[c]), change);
        var o := Reconfigure(names, Current(s.clients[c]), change);
        if o.Committed? { CommitKeepsSound(names, s, c, o.state); }
    }
  }

  lemma SoundStep(names: Names, s: System, a: Action)
    requires Inv(s) && Sound(names, s) && Enabled(names, s, a)
    ensures Sound(names, Do(names, s, a))
  {
    if a.Create? || a.Clone? || a.Change? {
      ClientStepKeepsSound(names, s, a);
    } else if a.EndPrepare? {
      EndPrepareKeepsSound(names, s, a);
    } else if a.EndActivate? {
      EndActivateKeepsSound(names, s, a.t, a.probe);
    } else {
      LockStepKeepsSound(names, s, a);
    }
  }

  lemma CloneConsistent(names: Names, st: State, creds: Credentials)
    requires Consistent(names, st)
    ensures Consistent(names, WithCredentials(st, creds))
  {
  }

  lemma {:induction false} SoundExec(names: Names, s: System, run: seq<Action>)
    requires Inv(s) && Sound(names, s)
    ensures Exec(names, s, run).Some? ==> Sound(names, Exec(names, s, run).value)
    decreases |run|
  {
    if run != [] && Enabled(names, s, run[0]) {
      SoundStep(names, s, run[0]);
      InvStep(names, s, run[0]);
      SoundExec(names, Do(names, s, run[0]), run[1..]);
    }
  }

  /** In every reachable system every client's parts agree. */
  lemma ClientsStayConsistent(names: Names, s: System, c: ClientId)
    requires Reachable(names, s) && c in s.clients
    ensures s.clients[c].history != [] && Consistent(names, Current(s.clients[c]))
  {
    var run :| Exec(names, EMPTY, run) == Some(s);
    SoundExec(names, EMPTY, run);
    CurrentConsistent(names, s, c);
  }

  /** The revisions at two places of a history are equal exactly a multiple of 2^64 commits apart. */
  lemma RevisionsRecur(h: seq<State>, i: nat, k: nat)
    requires HistoryOk(h) && i <= k < |h|
    ensures h[i].revision == h[k].revision <==> (k - i) % REVISIONS == 0
    ensures h[i].revision == h[k].revision && k - i < REVISIONS ==> i == k
  {
    RevisionAtIsModular(h[0].revision, i);
    RevisionAtIsModular(h[0].revision, k);
    SameResidue(h[0].revision + i, h[0].revision + k);
  }

  lemma SameResidue(a: nat, b: nat)
    requires a <= b
    ensures a % REVISIONS == b % REVISIONS <==> (b - a) % REVISIONS == 0
    ensures a % REVISIONS == b % REVISIONS && b - a < REVISIONS ==> a == b
  {
  }

  lemma LoggedActivation(s: System, e: Activation)
    requires Inv(s) && e in s.log
    ensures LogOk(s, e)
    ensures var x := s.stored[e.which];
            var h := s.clients[e.client].history;
            && SameTarget(h[e.at + 1], h[e.at])
            && (e.at - x.base) % REVISIONS == 0
            && (e.at - x.base < REVISIONS ==>
                  x.base == e.at && h[e.at + 1].settings.credentials == h[e.at].settings.credentials)
  {
    var x := s.stored[e.which];
    var h := s.clients[e.client].history;
    assert HistoryOk(h) && StoredOk(s, x);
    RevisionsRecur(h, x.base, e.at);
    assert SameTarget(h[e.at + 1], h[0]) && SameTarget(h[e.at], h[0]);
  }

  /** Every activation that ever took effect did so on the client that prepared the candidate, and
      unless a multiple of 2^64 commits came in between, on the very state it was prepared from. It
      then keeps the credentials; it never changes connection host, port or scheme. What runs afterwards
      has the identity, the authority and the verification its caller asked for. */
  lemma ActivationsAreCurrent(names: Names, s: System, e: Activation)
    requires Reachable(names, s) && e in s.log
    ensures e.client in s.clients && e.which < |s.stored|
    ensures var x := s.stored[e.which];
            var h := s.clients[e.client].history;
            && x.candidate.owner == e.client
            && x.base <= e.at < |h| - 1
            && h[e.at + 1] == Activate(h[e.at], x.candidate)
            && SameTarget(h[e.at + 1], h[e.at])
            && (e.at - x.base) % REVISIONS == 0
            && (e.at - x.base < REVISIONS ==>
                  x.base == e.at && h[e.at + 1].settings.credentials == h[e.at].settings.credentials)
            && RunsAsAsked(h[e.at + 1], x, h[x.base].settings)
  {
    ReachableInv(names, s);
    LoggedActivation(s, e);
    LoggedAsAsked(s, e);
  }

  /** The client has the files, the identity, the authority and the verification of the request. */
  predicate RunsAsAsked(st: State, x: Stored, base: Settings) {
    var name := x.request.name;
    var host := NormalizeHost(if name.Some? then NormalizeHost(name.value) else base.endpoint.host);
    && Asked(x.request.verification, base.acceptInvalid, st.settings.acceptInvalid)
    && st.tls == Some(x.request.tls)
    && st.generation == ClientTls(x.loaded, host, st.settings.acceptInvalid)
    && st.transport.client
       == WithIdentity(x.loaded, host, base.endpoint.connectHost, base.endpoint.port, st.settings.acceptInvalid)
  }

  lemma LoggedAsAsked(s: System, e: Activation)
    requires Inv(s) && e in s.log
    ensures e.client in s.clients && e.which < |s.stored|
    ensures var x := s.stored[e.which];
            var h := s.clients[e.client].history;
            x.base < |h| && e.at + 1 < |h| && RunsAsAsked(h[e.at + 1], x, h[x.base].settings)
  {
    var k :| 0 <= k < |s.log| && s.log[k] == e;
    assert LogOk(s, s.log[k]);
    assert StoredOk(s, s.stored[e.which]);
  }

  /** Without a successful probe nothing changes: a failed or cancelled activation leaves every client and
      every candidate as they were, and frees the client. */
  lemma FailureLeavesAll(names: Names, s: System, t: Caller, a: Action)
    requires Inv(s) && Enabled(names, s, a) && (a == Cancel(t) || a == EndActivate(t, false))
    ensures var s' := Do(names, s, a);
            && s'.clients.Keys == s.clients.Keys && s'.stored == s.stored && s'.log == s.log
            && (forall c | c in s.clients :: s'.clients[c].history == s.clients[c].history)
            && s'.jobs == s.jobs - {t}
            && s.jobs[t].client in s'.clients && s'.clients[s.jobs[t].client].holder.None?
  {
    assert JobOk(s, t, s.jobs[t]);
  }

  /** Of the candidates a client prepared itself, an activation turns down exactly those that are neither
      current nor active already. */
  lemma TurnedDownExactly(c: ClientId, st: State, p: Candidate)
    ensures Admit(c, st, p).RefuseForeign? <==> p.owner != c
    ensures Admit(c, st, p).RefuseStale? <==>
            p.owner == c && st.revision != p.basedOn && !(st.generation == p.generation && st.tls == Some(p.tls))
    ensures Admit(c, st, p).AdmitFresh? <==> p.owner == c && st.revision == p.basedOn
  {
  }

  lemma AdmittedWhenCurrent(s: System, c: ClientId, which: nat)
    requires Inv(s) && c in s.clients && which < |s.stored|
    ensures s.clients[c].history != []
    ensures var x := s.stored[which];
            Admit(c, Current(s.clients[c]), x.candidate).AdmitFresh? <==>
            x.candidate.owner == c && (|s.clients[c].history| - 1 - x.base) % REVISIONS == 0
  {
    var x := s.stored[which];
    var h := s.clients[c].history;
    assert HistoryOk(h) && StoredOk(s, x);
    if x.candidate.owner == c {
      RevisionsRecur(h, x.base, |h| - 1);
    }
  }

  /** In every interleaving an activation that reports success leaves the candidate's generation and files
      active, whether it committed them or found them there. */
  lemma SuccessMeansActive(names: Names, s: System, t: Caller)
    requires Reachable(names, s) && Enabled(names, s, EndActivate(t, true))
    ensures var c := s.jobs[t].client;
            var s' := Do(names, s, EndActivate(t, true));
            && c in s'.clients && s'.clients[c].history != []
            && Active(Current(s'.clients[c]), s.stored[s.jobs[t].which].candidate)
  {
    ReachableInv(names, s);
    EndedActive(names, s, t);
  }

  lemma EndedActive(names: Names, s: System, t: Caller)
    requires Inv(s) && Enabled(names, s, EndActivate(t, true))
    ensures var c := s.jobs[t].client;
            var s' := Do(names, s, EndActivate(t, true));
            && c in s'.clients && s'.clients[c].history != []
            && Active(Current(s'.clients[c]), s.stored[s.jobs[t].which].candidate)
  {
    assert JobOk(s, t, s.jobs[t]);
    ReleasedClient(s, t);
  }

  /** An activation is let through to a commit exactly when the client asked is the one that
      prepared the candidate and the number of commits since is a multiple of 2^64. */
  lemma AdmittedExactlyWhenCurrent(names: Names, s: System, c: ClientId, which: nat)
    requires Reachable(names, s) && c in s.clients && which < |s.stored|
    ensures s.clients[c].history != []
    ensures var x := s.stored[which];
            Admit(c, Current(s.clients[c]), x.candidate).AdmitFresh? <==>
            x.candidate.owner == c && (|s.clients[c].history| - 1 - x.base) % REVISIONS == 0
  {
    ReachableInv(names, s);
    AdmittedWhenCurrent(s, c, which);
  }

  /** A clone has everything of its source but the credentials. */
  function ClonedFrom(st: State, creds: Credentials): State {
    st.(transport := st.transport.(credentials := creds), settings := st.settings.(credentials := creds))
  }

  /** A clone starts at the revision of its source, yet it refuses what the source prepared. */
  lemma CloneRefusesCandidates(names: Names, s: System, source: ClientId, c: ClientId, creds: Credentials, which: nat)
    requires Reachable(names, s) && Enabled(names, s, Clone(source, c, creds)) && which < |s.stored|
    ensures var s' := Do(names, s, Clone(source, c, creds));
            && Current(s'.clients[c]).revision == Current(s.clients[source]).revision
            && Current(s'.clients[c]) == ClonedFrom(Current(s.clients[source]), creds)
            && Admit(c, Current(s'.clients[c]), s'.stored[which].candidate).RefuseForeign?
  {
    ReachableInv(names, s);
    assert StoredOk(s, s.stored[which]);
  }

  // ---- The counter wraps --------------------------------------------------------------------

  lemma {:induction false} ExecAppend(names: Names, s: System, run: seq<Action>, a: Action)
    requires Exec(names, s, run).Some? && Enabled(names, Exec(names, s, run).value, a)
    ensures Exec(names, s, run + [a]) == Some(Do(names, Exec(names, s, run).value, a))
    decreases |run|
  {
    if run == [] {
      assert Exec(names, Do(names, s, a), []) == Some(Do(names, s, a));
      assert (run + [a])[1..] == [];
    } else {
      assert (run + [a])[1..] == run[1..] + [a];
      ExecAppend(names, Do(names, s, run[0]), run[1..], a);
    }
  }

  lemma ReachableStep(names: Names, s: System, a: Action)
    requires Reachable(names, s) && Enabled(names, s, a)
    ensures Reachable(names, Do(names, s, a))
  {
    var run :| Exec(names, EMPTY, run) == Some(s);
    ExecAppend(names, EMPTY, run, a);
  }

  /** Every step stays inside `reach`. */
  ghost predicate Closed(names: Names, reach: System -> bool) {
    forall s, a | reach(s) && Enabled(names, s, a) :: reach(Do(names, s, a))
  }

  lemma Take(names: Names, reach: System -> bool, s: System, a: Action) returns (s': System)
    requires Closed(names, reach) && reach(s) && Enabled(names, s, a)
    ensures s' == Do(names, s, a) && reach(s')
  {
    s' := Do(names, s, a);
  }

  /** `n` credential updates in a row commit `n` times. */
  lemma {:induction false} UpdateManyTimes(names: Names, reach: System -> bool, s: System, c: ClientId,
                                           creds: Credentials, n: nat)
    returns (s': System)
    requires Closed(names, reach) && reach(s) && Inv(s) && Free(s, c)
    ensures reach(s') && Inv(s') && Free(s', c) && s'.jobs == s.jobs && s'.stored == s.stored && s'.log == s.log
    ensures |s'.clients[c].history| == |s.clients[c].history| + n
    ensures n > 0 ==> Current(s'.clients[c]).settings.credentials == creds
  {
    s' := s;
    if n > 0 {
      s' := UpdateManyTimes(names, reach, s, c, creds, n - 1);
      InvStep(names, s', Change(c, NewCredentials(creds)));
      s' := Take(names, reach, s', Change(c, NewCredentials(creds)));
    }
  }

  /** A candidate of a free client that was prepared from its current state. */
  predicate Waiting(s: System, which: nat) {
    && which < |s.stored|
    && var x := s.stored[which];
       Free(s, x.candidate.owner) && x.base == |s.clients[x.candidate.owner].history| - 1
  }

  /** The last activation took effect a full turn after candidate `which` was prepared, and changed the
      credentials. */
  predicate Revived(s: System, which: nat) {
    && s.log != [] && which < |s.stored|
    && var e := s.log[|s.log| - 1];
       && e.client in s.clients && e.which == which && e.at < |s.clients[e.client].history| - 1
       && e.at - s.stored[which].base == REVISIONS
       && var h := s.clients[e.client].history;
          h[e.at + 1].settings.credentials != h[e.at].settings.credentials
  }

  lemma WrapWithin(names: Names, reach: System -> bool, s: System, which: nat, t: Caller, creds: Credentials)
    returns (s': System)
    requires Closed(names, reach) && reach(s) && Inv(s) && Waiting(s, which) && t !in s.jobs
    requires creds != s.stored[which].candidate.settings.credentials
    ensures reach(s') && Revived(s', which)
  {
    var c := s.stored[which].candidate.owner;
    var s1 := UpdateManyTimes(names, reach, s, c, creds, REVISIONS);
    FullTurnAdmits(s1, c, which);
    s' := CommitNow(names, reach, s1, which, t);
  }

  /** After exactly 2^64 updates a candidate based on the old credentials is activated again, and
      brings them back. */
  lemma WrapRevivesCandidate(names: Names, s: System, which: nat, t: Caller, creds: Credentials) returns (s': System)
    requires Reachable(names, s) && Waiting(s, which) && t !in s.jobs
    requires creds != s.stored[which].candidate.settings.credentials
    ensures Reachable(names, s') && Revived(s', which)
  {
    ReachableInv(names, s);
    ghost var reach := (s: System) => Reachable(names, s);
    forall s, a | reach(s) && Enabled(names, s, a) ensures reach(Do(names, s, a)) {
      ReachableStep(names, s, a);
    }
    s' := WrapWithin(names, reach, s, which, t, creds);
  }

  /** Any valid HTTPS endpoint gives a client with a candidate prepared from its current state. */
  lemma CandidateExists(names: Names, c: Settings, f: Fingerprint, tls: TlsPaths) returns (s: System)
    requires ValidEndpoint(names, c.endpoint) && c.endpoint.scheme.Https?
    ensures Reachable(names, s) && Waiting(s, 0) && s.jobs == map[]
    ensures s.stored[0].candidate.settings.credentials == c.credentials
  {
    assert Exec(names, EMPTY, []) == Some(EMPTY);
    ghost var reach := (s: System) => Reachable(names, s);
    forall s, a | reach(s) && Enabled(names, s, a) ensures reach(Do(names, s, a)) {
      ReachableStep(names, s, a);
    }
    s := CandidateWithin(names, reach, c, f, tls);
  }

  lemma CandidateWithin(names: Names, reach: System -> bool, c: Settings, f: Fingerprint, tls: TlsPaths)
    returns (s: System)
    requires Closed(names, reach) && reach(EMPTY)
    requires ValidEndpoint(names, c.endpoint) && c.endpoint.scheme.Https?
    ensures reach(s) && Waiting(s, 0) && s.jobs == map[]
    ensures s.stored[0].candidate.settings.credentials == c.credentials
  {
    s := Take(names, reach, EMPTY, Create(0, New(true), c));
    var q := ClientState.Request(tls, None, false, Configured);
    s := Take(names, reach, s, BeginPrepare(0, 0, q));
    PreparedNow(names, s.clients[0].history[0], q, f);
    s := Take(names, reach, s, EndPrepare(0, Some(f), true));
    assert s.jobs == map[];
  }

  lemma PreparedNow(names: Names, st: State, q: ClientState.Request, f: Fingerprint)
    requires ValidEndpoint(names, st.settings.endpoint) && st.scheme.Https?
    requires q.name.None? && !q.skipIfUnchanged && q.verification.Configured?
    ensures var p := Prepare(names, 0, st, st, q, Some(f), true);
            p.Some? && p.value.owner == 0 && p.value.settings == st.settings
  {
  }

  /** So the wrap can happen on every valid HTTPS endpoint. */
  lemma WrapHappens(names: Names, c: Settings, f: Fingerprint, tls: TlsPaths, creds: Credentials) returns (s: System)
    requires ValidEndpoint(names, c.endpoint) && c.endpoint.scheme.Https? && creds != c.credentials
    ensures Reachable(names, s) && Revived(s, 0)
  {
    s := CandidateExists(names, c, f, tls);
    s := WrapRevivesCandidate(names, s, 0, 0, creds);
  }

  lemma FullTurnAdmits(s: System, c: ClientId, which: nat)
    requires Inv(s) && c in s.clients && which < |s.stored|
    requires s.stored[which].candidate.owner == c
    requires |s.clients[c].history| - 1 - s.stored[which].base == REVISIONS
    ensures s.clients[c].history != [] && Admit(c, Current(s.clients[c]), s.stored[which].candidate).AdmitFresh?
  {
    AdmittedWhenCurrent(s, c, which);
  }

  lemma BeginNow(names: Names, reach: System -> bool, s: System, c: ClientId, which: nat, t: Caller)
    returns (s': System)
    requires Closed(names, reach) && reach(s) && which < |s.stored| && t !in s.jobs
    requires Free(s, c) && Admit(c, Current(s.clients[c]), s.stored[which].candidate).AdmitFresh?
    ensures reach(s') && s' == Hold(s, t, Activating(c, which, true))
  {
    s' := Take(names, reach, s, BeginActivate(t, c, which));
  }

  lemma CommitNow(names: Names, reach: System -> bool, s: System, which: nat, t: Caller) returns (s': System)
    requires Closed(names, reach) && reach(s) && which < |s.stored| && t !in s.jobs
    requires var p := s.stored[which].candidate;
             Free(s, p.owner) && Admit(p.owner, Current(s.clients[p.owner]), p).AdmitFresh?
    ensures reach(s')
    ensures var p := s.stored[which].candidate;
            && s'.log == s.log + [Activation(p.owner, which, |s.clients[p.owner].history| - 1)] && s'.stored == s.stored
            && p.owner in s'.clients
            && s'.clients[p.owner].history == s.clients[p.owner].history + [Activate(Current(s.clients[p.owner]), p)]
  {
    var c := s.stored[which].candidate.owner;
    var s1 := BeginNow(names, reach, s, c, which, t);
    EndNow(names, s1, t);
    s' := Take(names, reach, s1, EndActivate(t, true));
  }

  lemma EndNow(names: Names, s: System, t: Caller)
    requires t in s.jobs && s.jobs[t].Activating? && s.jobs[t].current && s.jobs[t].client in s.clients
    requires s.jobs[t].which < |s.stored| && s.clients[s.jobs[t].client].history != []
    ensures Enabled(names, s, EndActivate(t, true))
    ensures var j := s.jobs[t];
            var s' := Do(names, s, EndActivate(t, true));
            && s'.log == s.log + [Activation(j.client, j.which, |s.clients[j.client].history| - 1)]
            && s'.stored == s.stored
            && j.client in s'.clients
            && s'.clients[j.client].history
               == s.clients[j.client].history + [Activate(Current(s.clients[j.client]), s.stored[j.which].candidate)]
  {
  }
}
