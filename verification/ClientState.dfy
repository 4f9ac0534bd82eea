/**
 One NVUE client: the settings and transport it holds, and every operation that replaces
 them. Outcomes of name parsing, TLS loading and HTTP client construction are inputs.
 */
module ClientState {
  import opened Text

  datatype Scheme = Http | Https

  datatype Endpoint = Endpoint(host: string, connectHost: string, port: nat, scheme: Scheme)

  datatype Credentials = Credentials(username: string, password: string)

  datatype Settings = Settings(endpoint: Endpoint, credentials: Credentials, acceptInvalid: bool)

  datatype TlsPaths = TlsPaths(ca: string, cert: string, key: string)

  type Fingerprint = string

  datatype Generation =
    | Plain
    | ClientTls(fingerprint: Fingerprint, serverName: string, acceptInvalid: bool)

  /** The HTTP stack behind a transport, up to what decides whom it talks to and trusts. */
  datatype HttpClient =
    | Imported
    | SharedPlain(acceptInvalid: bool)
    | PinnedPlain(host: string, ip: nat, port: nat, acceptInvalid: bool)
    | WithIdentity(fingerprint: Fingerprint, serverName: string, connectHost: string, port: nat, acceptInvalid: bool)

  datatype Transport = Transport(
    client: HttpClient, baseUrl: string, credentials: Credentials, sendEmptyBasicAuth: bool)

  datatype State = State(
    transport: Transport,
    generation: Generation,
    revision: nat,
    settings: Settings,
    tls: Option<TlsPaths>,
    scheme: Scheme)

  /** The revision counter is an unsigned 64-bit integer that wraps. */
  const REVISIONS: nat := 0x1_0000_0000_0000_0000

  function NextRevision(r: nat): nat {
    (r + 1) % REVISIONS
  }

  /** How the platform reads host text. */
  datatype Names = Names(isServerName: string -> bool, parseIp: string -> Option<nat>, isIpv6: string -> bool)

  // ---- Hosts --------------------------------------------------------------------------------

  /** Surrounding space goes, and so does one pair of brackets. */
  function NormalizeHost(host: string): string {
    var t := Trim(host);
    if |t| >= 2 && t[0] == '[' && t[|t| - 1] == ']' then t[1..|t| - 1] else t
  }

  /** DNS names and IP addresses are written with these characters. */
  predicate IsNameChar(c: char) {
    IsAsciiAlphanumeric(c) || c == '-' || c == '_' || c == '.' || c == ':'
  }

  predicate ValidServerName(names: Names, host: string) {
    var n := NormalizeHost(host);
    (forall i | 0 <= i < |n| :: IsNameChar(n[i])) && names.isServerName(n)
  }

  function FormatUrlHost(names: Names, host: string): string {
    var n := NormalizeHost(host);
    if names.isIpv6(n) then "[" + n + "]" else n
  }

  function SchemeText(s: Scheme): string {
    if s.Http? then "http" else "https"
  }

  function BaseUrl(names: Names, e: Endpoint, scheme: Scheme, host: string): string {
    SchemeText(scheme) + "://" + FormatUrlHost(names, host) + ":" + Decimal(e.port)
  }

  predicate ValidEndpoint(names: Names, e: Endpoint) {
    && Trim(e.host) != ""
    && Trim(e.connectHost) != ""
    && ValidServerName(names, e.host)
    && (NormalizeHost(e.host) != NormalizeHost(e.connectHost) ==>
          var ip := names.parseIp(NormalizeHost(e.connectHost));
          var authority := names.parseIp(NormalizeHost(e.host));
          ip.Some? && (authority.Some? ==> authority == ip))
    && e.port != 0
  }

  lemma TrimNameIsIdentity(s: string)
    requires forall i | 0 <= i < |s| :: IsNameChar(s[i])
    ensures Trim(s) == s
  {
    assert s != [] ==> !IsWhitespace(s[0]) && !IsWhitespace(s[|s| - 1]);
  }

  predicate Bracketed(s: string, inner: string) {
    s == "[" + inner + "]"
  }

  /** Normalizing takes away the white space around a host and then one pair of brackets around it. */
  lemma NormalizeExactly(before: string, s: string, after: string)
    requires AllWhitespace(before) && Trimmed(s) && AllWhitespace(after)
    ensures forall inner | Bracketed(s, inner) :: NormalizeHost(before + s + after) == inner
    ensures (forall inner :: !Bracketed(s, inner)) ==> NormalizeHost(before + s + after) == s
  {
    TrimExactly(before, s, after);
    if |s| >= 2 && s[0] == '[' && s[|s| - 1] == ']' {
      assert Bracketed(s, s[1..|s| - 1]);
    }
  }

  /** A second normalization changes nothing once the first one left a server name. */
  lemma NormalizeServerName(names: Names, host: string)
    requires ValidServerName(names, host)
    ensures NormalizeHost(NormalizeHost(host)) == NormalizeHost(host)
  {
    TrimNameIsIdentity(NormalizeHost(host));
  }

  // ---- Transports ---------------------------------------------------------------------------

  function BuildPlain(names: Names, c: Settings, scheme: Scheme, works: bool): Option<Transport> {
    var e := c.endpoint;
    var url := BaseUrl(names, e, scheme, e.host);
    if !works then None
    else if NormalizeHost(e.host) != NormalizeHost(e.connectHost) then
      match names.parseIp(NormalizeHost(e.connectHost))
      case None => None
      case Some(ip) =>
        Some(Transport(PinnedPlain(NormalizeHost(e.host), ip, e.port, c.acceptInvalid), url, c.credentials, false))
    else
      Some(Transport(SharedPlain(c.acceptInvalid), url, c.credentials, false))
  }

  function BuildClientTls(names: Names, c: Settings, serverName: string, f: Fingerprint, scheme: Scheme, works: bool)
    : Option<Transport>
  {
    if !scheme.Https? || !works then None
    else Some(Transport(WithIdentity(f, serverName, c.endpoint.connectHost, c.endpoint.port, c.acceptInvalid),
                        BaseUrl(names, c.endpoint, scheme, serverName), c.credentials, false))
  }

  // ---- Construction -------------------------------------------------------------------------

  /** `works` says whether the HTTP client could be built; `loaded` is the TLS snapshot. */
  datatype Construction =
    | New(works: bool)
    | FromReqwest
    | Connect(tls: Option<TlsPaths>, loaded: Option<Fingerprint>, works: bool)

  function Construct(names: Names, how: Construction, c: Settings): Option<State> {
    var scheme := c.endpoint.scheme;
    if !ValidEndpoint(names, c.endpoint) then None
    else match how
      case New(works) => WithPlain(BuildPlain(names, c, scheme, works), c)
      case FromReqwest =>
        if NormalizeHost(c.endpoint.host) != NormalizeHost(c.endpoint.connectHost) then None
        else Some(State(Transport(Imported, BaseUrl(names, c.endpoint, scheme, c.endpoint.host), c.credentials, true),
                        Plain, 0, c, None, scheme))
      case Connect(None, _, works) => WithPlain(BuildPlain(names, c, scheme, works), c)
      case Connect(Some(tls), loaded, works) =>
        if loaded.None? then None
        else
          var name := NormalizeHost(c.endpoint.host);
          match BuildClientTls(names, c, name, loaded.value, scheme, works)
          case None => None
          case Some(t) =>
            Some(State(t, ClientTls(loaded.value, name, c.acceptInvalid), 0, c, Some(tls), scheme))
  }

  function WithPlain(t: Option<Transport>, c: Settings): Option<State> {
    match t case None => None case Some(t) => Some(State(t, Plain, 0, c, None, c.endpoint.scheme))
  }

  function WithCredentials(st: State, creds: Credentials): State {
    st.(transport := st.transport.(credentials := creds), settings := st.settings.(credentials := creds))
  }

  // ---- Replacing the transport --------------------------------------------------------------

  datatype Error = InvalidEndpoint | TlsUnavailable | BuildFailed | ProbeFailed | Stale | Foreign

  datatype Outcome = Committed(state: State) | Unchanged | Rejected(error: Error)

  datatype Change =
    | ServerName(name: Option<string>, works: bool)
    | InsecureHttps(works: bool)
    | NewCredentials(creds: Credentials)

  function WithHost(c: Settings, name: string): Settings {
    c.(endpoint := c.endpoint.(host := NormalizeHost(name)))
  }

  /** The settings with an optional new TLS authority, or `None` when that authority is refused. */
  function Rehost(names: Names, c: Settings, name: Option<string>): Option<Settings> {
    match name
    case None => Some(c)
    case Some(n) =>
      if ValidServerName(names, n) && ValidEndpoint(names, WithHost(c, n).endpoint)
      then Some(WithHost(c, n)) else None
  }

  function Reconfigure(names: Names, st: State, change: Change): Outcome {
    match change
    case ServerName(name, works) =>
      if st.tls.Some? then Rejected(InvalidEndpoint)
      else
        (match Rehost(names, st.settings, name)
         case None => Rejected(InvalidEndpoint)
         case Some(c) =>
           if st.generation.Plain? && NormalizeHost(st.settings.endpoint.host) == NormalizeHost(c.endpoint.host)
           then Unchanged
           else match BuildPlain(names, c, st.scheme, works)
             case None => Rejected(BuildFailed)
             case Some(t) => Committed(State(t, Plain, NextRevision(st.revision), c, st.tls, st.scheme)))
    case InsecureHttps(works) =>
      if !st.scheme.Https? then Rejected(InvalidEndpoint)
      else
        var c := st.settings.(acceptInvalid := true);
        if st.generation.Plain? && st.tls.None? && st.settings.acceptInvalid then Unchanged
        else
          (match BuildPlain(names, c, st.scheme, works)
           case None => Rejected(BuildFailed)
           case Some(t) => Committed(State(t, Plain, NextRevision(st.revision), c, None, st.scheme)))
    case NewCredentials(creds) =>
      Committed(WithCredentials(st, creds).(revision := NextRevision(st.revision)))
  }

  datatype Verification = Configured | Required | Unverified

  datatype Request = Request(tls: TlsPaths, name: Option<string>, skipIfUnchanged: bool, verification: Verification)

  /** A transport awaiting its probe, with the client that prepared it and the revision it saw. */
  datatype Candidate = Candidate(
    owner: nat, basedOn: nat, transport: Transport, generation: Generation, settings: Settings, tls: TlsPaths)

  function Verified(c: Settings, v: Verification): Settings {
    match v
    case Configured => c
    case Required => c.(acceptInvalid := false)
    case Unverified => c.(acceptInvalid := true)
  }

  /** `base` is what the client held when the preparation began, `now` what it holds after loading. */
  function Prepare(names: Names, owner: nat, base: State, now: State, q: Request,
                   loaded: Option<Fingerprint>, works: bool): Option<Candidate>
  {
    match Rehost(names, base.settings, q.name)
    case None => None
    case Some(hosted) =>
      var c := Verified(hosted, q.verification);
      if loaded.None? || !ValidServerName(names, c.endpoint.host) then None
      else
        var name := NormalizeHost(c.endpoint.host);
        var g := ClientTls(loaded.value, name, c.acceptInvalid);
        if q.skipIfUnchanged && now.generation == g && now.tls == Some(q.tls) then None
        else match BuildClientTls(names, c, name, loaded.value, base.scheme, works)
          case None => None
          case Some(t) => Some(Candidate(owner, base.revision, t, g, c, q.tls))
  }

  /** What an activation finds when it looks at the client before the probe. */
  datatype Admission = AdmitFresh | AlreadyActive | RefuseStale | RefuseForeign

  function Admit(owner: nat, st: State, p: Candidate): Admission {
    if p.owner != owner then RefuseForeign
    else if st.revision == p.basedOn then AdmitFresh
    else if st.generation == p.generation && st.tls == Some(p.tls) then AlreadyActive
    else RefuseStale
  }

  function Activate(st: State, p: Candidate): State {
    State(p.transport, p.generation, NextRevision(st.revision), p.settings, Some(p.tls), st.scheme)
  }

  // ---- Agreement of the parts ---------------------------------------------------------------

  function Accepts(h: HttpClient): bool
    requires !h.Imported?
  {
    h.acceptInvalid
  }

  predicate TransportMatches(names: Names, t: Transport, c: Settings, scheme: Scheme) {
    && t.credentials == c.credentials
    && t.baseUrl == BaseUrl(names, c.endpoint, scheme, c.endpoint.host)
    && (t.client.Imported? || Accepts(t.client) == c.acceptInvalid)
    && (t.sendEmptyBasicAuth <==> t.client.Imported?)
    && Dials(names, t.client, c.endpoint)
  }

  /** The connection goes to the connect host and port of the endpoint, whatever authority the URL names. */
  predicate Dials(names: Names, h: HttpClient, e: Endpoint) {
    match h
    case PinnedPlain(host, ip, port, _) =>
      host == NormalizeHost(e.host) && port == e.port && names.parseIp(NormalizeHost(e.connectHost)) == Some(ip)
    case WithIdentity(_, _, connectHost, port, _) => connectHost == e.connectHost && port == e.port
    case _ => NormalizeHost(e.host) == NormalizeHost(e.connectHost)
  }

  predicate GenerationMatches(g: Generation, t: Transport, c: Settings, scheme: Scheme) {
    g.ClientTls? ==>
      && scheme.Https?
      && g.serverName == NormalizeHost(c.endpoint.host)
      && g.acceptInvalid == c.acceptInvalid
      && t.client == WithIdentity(g.fingerprint, g.serverName, c.endpoint.connectHost, c.endpoint.port, g.acceptInvalid)
  }

  /** The parts of a client agree with each other. */
  predicate Consistent(names: Names, st: State) {
    && (st.generation.Plain? <==> st.tls.None?)
    && TransportMatches(names, st.transport, st.settings, st.scheme)
    && GenerationMatches(st.generation, st.transport, st.settings, st.scheme)
    && (st.generation.Plain? ==> !st.transport.client.WithIdentity?)
    && st.scheme == st.settings.endpoint.scheme
    && ValidEndpoint(names, st.settings.endpoint)
  }

  lemma ClientTlsMatches(names: Names, c: Settings, f: Fingerprint, scheme: Scheme, works: bool)
    requires ValidServerName(names, c.endpoint.host)
    ensures var name := NormalizeHost(c.endpoint.host);
            var t := BuildClientTls(names, c, name, f, scheme, works);
            t.Some? ==> TransportMatches(names, t.value, c, scheme)
                        && GenerationMatches(ClientTls(f, name, c.acceptInvalid), t.value, c, scheme)
  {
    NormalizeServerName(names, c.endpoint.host);
  }

  lemma ConstructConsistent(names: Names, how: Construction, c: Settings)
    ensures var st := Construct(names, how, c); st.Some? ==> Consistent(names, st.value)
  {
    if how.Connect? && how.tls.Some? && how.loaded.Some? && ValidEndpoint(names, c.endpoint) {
      ClientTlsMatches(names, c, how.loaded.value, c.endpoint.scheme, how.works);
    }
  }

  /** What is wrong with an endpoint, if anything. */
  predicate Refused(names: Names, e: Endpoint) {
    var host, dialled := NormalizeHost(e.host), NormalizeHost(e.connectHost);
    || Trim(e.host) == "" || Trim(e.connectHost) == "" || e.port == 0
    || RefusedName(names, host)
    || (host != dialled && names.parseIp(dialled).None?)
    || (host != dialled && names.parseIp(host).Some? && names.parseIp(host) != names.parseIp(dialled))
  }

  predicate RefusedName(names: Names, name: string) {
    !names.isServerName(name) || exists i | 0 <= i < |name| :: !IsNameChar(name[i])
  }

  /** A client is constructed exactly for endpoints that are not refused, when what it needs is there, and
      it holds just what it was given. */
  lemma ConstructExactly(names: Names, how: Construction, c: Settings)
    ensures var e := c.endpoint;
            Construct(names, how, c).Some? <==>
            && !Refused(names, e)
            && match how
               case New(works) => works
               case FromReqwest => NormalizeHost(e.host) == NormalizeHost(e.connectHost)
               case Connect(None, _, works) => works
               case Connect(Some(_), loaded, works) => loaded.Some? && e.scheme.Https? && works
    ensures var st := Construct(names, how, c);
            st.Some? ==>
              && st.value.settings == c && st.value.scheme == c.endpoint.scheme && st.value.revision == 0
              && st.value.tls == (if how.Connect? then how.tls else None)
              && (st.value.transport.client.Imported? <==> how.FromReqwest?)
              && (how.Connect? && how.tls.Some? ==>
                    st.value.generation == ClientTls(how.loaded.value, NormalizeHost(c.endpoint.host), c.acceptInvalid))
  {
    RefusedIsInvalid(names, c.endpoint);
  }

  lemma RefusedIsInvalid(names: Names, e: Endpoint)
    ensures Refused(names, e) <==> !ValidEndpoint(names, e)
  {
  }

  /** The URL names the scheme, the normalized authority and the port. */
  lemma BaseUrlReads(names: Names, e: Endpoint, host: string)
    ensures var n := NormalizeHost(host);
            && BaseUrl(names, e, Http, host)
               == "http://" + (if names.isIpv6(n) then "[" + n + "]" else n) + ":" + Decimal(e.port)
            && BaseUrl(names, e, Https, host)
               == "https://" + (if names.isIpv6(n) then "[" + n + "]" else n) + ":" + Decimal(e.port)
  {
    var n := NormalizeHost(host);
    var h := if names.isIpv6(n) then "[" + n + "]" else n;
    assert "http" + "://" == "http://" && "https" + "://" == "https://";
    assert "http" + "://" + h + ":" + Decimal(e.port) == "http://" + h + ":" + Decimal(e.port);
  }

  lemma ReconfigureConsistent(names: Names, st: State, change: Change)
    requires Consistent(names, st)
    ensures var o := Reconfigure(names, st, change); o.Committed? ==> Consistent(names, o.state)
  {
  }

  /** The settings with the authority a caller asked for, if any. */
  predicate Rehosted(c: Settings, name: Option<string>, r: Settings) {
    r == c.(endpoint := c.endpoint.(host := if name.Some? then NormalizeHost(name.value) else c.endpoint.host))
  }

  /** The authority a caller asks for, if any, is not refused. */
  predicate NameAccepted(names: Names, c: Settings, name: Option<string>) {
    name.Some? ==> !RefusedName(names, NormalizeHost(name.value))
                   && !Refused(names, c.endpoint.(host := NormalizeHost(name.value)))
  }

  /** A change of authority commits exactly when there is no client TLS, the name is accepted, it is a new
      one and a client can be built; then the authority is all that changes. */
  lemma ServerNameExactly(names: Names, st: State, name: Option<string>, works: bool)
    requires Consistent(names, st)
    ensures var o := Reconfigure(names, st, ServerName(name, works));
            var asked := if name.Some? then NormalizeHost(name.value) else st.settings.endpoint.host;
            var same := NormalizeHost(asked) == NormalizeHost(st.settings.endpoint.host);
            && (o.Committed? <==> st.tls.None? && NameAccepted(names, st.settings, name) && !same && works)
            && (o.Unchanged? <==> st.tls.None? && NameAccepted(names, st.settings, name) && same)
    ensures var o := Reconfigure(names, st, ServerName(name, works));
            o.Committed? ==>
              && Rehosted(st.settings, name, o.state.settings)
              && o.state == st.(transport := o.state.transport, settings := o.state.settings,
                                revision := (st.revision + 1) % 0x1_0000_0000_0000_0000)
              && !o.state.transport.client.Imported?
  {
    RehostExactly(names, st.settings, name);
    var c := Rehost(names, st.settings, name);
    if c.Some? {
      PlainBuilt(names, c.value, st.scheme, works);
    }
  }

  lemma PlainBuilt(names: Names, c: Settings, scheme: Scheme, works: bool)
    requires ValidEndpoint(names, c.endpoint)
    ensures var t := BuildPlain(names, c, scheme, works);
            (t.Some? <==> works) && (t.Some? ==> !t.value.client.Imported?)
  {
  }

  lemma RehostExactly(names: Names, c: Settings, name: Option<string>)
    requires ValidEndpoint(names, c.endpoint)
    ensures Rehost(names, c, name).Some? <==> NameAccepted(names, c, name)
    ensures Rehost(names, c, name).Some? ==>
              Rehosted(c, name, Rehost(names, c, name).value)
              && ValidEndpoint(names, Rehost(names, c, name).value.endpoint)
  {
    if name.Some? {
      RefusedIsInvalid(names, WithHost(c, name.value).endpoint);
    }
  }

  /** Turning verification off commits exactly over HTTPS, unless it is off already without client TLS, and
      when a client can be built; it drops client TLS and changes nothing else. */
  lemma InsecureExactly(names: Names, st: State, works: bool)
    requires Consistent(names, st)
    ensures var o := Reconfigure(names, st, InsecureHttps(works));
            var already := st.tls.None? && st.settings.acceptInvalid;
            && (o.Committed? <==> st.scheme.Https? && !already && works)
            && (o.Unchanged? <==> st.scheme.Https? && already)
            && (o.Committed? ==>
                  && o.state == st.(transport := o.state.transport, generation := Plain, tls := None,
                                    settings := st.settings.(acceptInvalid := true),
                                    revision := (st.revision + 1) % 0x1_0000_0000_0000_0000)
                  && !o.state.transport.client.Imported?)
  {
  }

  /** New credentials always commit, and reach settings and transport alike. */
  lemma CredentialsExactly(names: Names, st: State, creds: Credentials)
    ensures var o := Reconfigure(names, st, NewCredentials(creds));
            && o.Committed?
            && o.state == st.(transport := st.transport.(credentials := creds),
                              settings := st.settings.(credentials := creds),
                              revision := (st.revision + 1) % 0x1_0000_0000_0000_0000)
  {
  }

  /** Whether a candidate may accept invalid certificates is what its caller asked for. */
  predicate Asked(v: Verification, before: bool, accepts: bool) {
    && (v.Required? ==> !accepts)
    && (v.Unverified? ==> accepts)
    && (v.Configured? ==> accepts == before)
  }

  /** The candidate is for the identity that was loaded, the authority and the verification asked for. */
  predicate AsRequested(p: Candidate, q: Request, base: Settings, loaded: Fingerprint) {
    && Asked(q.verification, base.acceptInvalid, p.settings.acceptInvalid)
    && Rehosted(base.(acceptInvalid := p.settings.acceptInvalid), q.name, p.settings)
    && p.tls == q.tls
    && p.generation == ClientTls(loaded, NormalizeHost(p.settings.endpoint.host), p.settings.acceptInvalid)
    && p.transport.client == WithIdentity(loaded, NormalizeHost(p.settings.endpoint.host),
                                          base.endpoint.connectHost, base.endpoint.port, p.settings.acceptInvalid)
    && p.transport.credentials == base.credentials
  }

  /** The settings of a candidate are those it was prepared from, but for authority and verification. */
  predicate DerivedFrom(p: Settings, c: Settings) {
    && p.credentials == c.credentials
    && p.endpoint == c.endpoint.(host := p.endpoint.host)
  }

  predicate CandidateOk(names: Names, p: Candidate, scheme: Scheme) {
    && p.generation.ClientTls?
    && TransportMatches(names, p.transport, p.settings, scheme)
    && GenerationMatches(p.generation, p.transport, p.settings, scheme)
    && ValidEndpoint(names, p.settings.endpoint)
  }

  lemma PrepareOk(names: Names, owner: nat, base: State, now: State, q: Request,
                  loaded: Option<Fingerprint>, works: bool)
    requires Consistent(names, base)
    ensures var p := Prepare(names, owner, base, now, q, loaded, works);
            p.Some? ==> CandidateOk(names, p.value, base.scheme) && DerivedFrom(p.value.settings, base.settings)
                        && p.value.owner == owner && p.value.basedOn == base.revision
                        && loaded.Some? && AsRequested(p.value, q, base.settings, loaded.value)
  {
    var hosted := Rehost(names, base.settings, q.name);
    if hosted.Some? && loaded.Some? {
      var c := Verified(hosted.value, q.verification);
      ClientTlsMatches(names, c, loaded.value, base.scheme, works);
    }
  }

  /** A candidate comes about exactly when the name is accepted, the material was loaded, the client uses
      HTTPS and one can be built, unless the caller skips what is active already. */
  lemma PreparedExactly(names: Names, owner: nat, base: State, now: State, q: Request,
                        loaded: Option<Fingerprint>, works: bool, accepts: bool)
    requires Consistent(names, base) && Asked(q.verification, base.settings.acceptInvalid, accepts)
    ensures var asked := if q.name.Some? then NormalizeHost(q.name.value) else base.settings.endpoint.host;
            var g := if loaded.Some? then ClientTls(loaded.value, NormalizeHost(asked), accepts) else Plain;
            Prepare(names, owner, base, now, q, loaded, works).Some? <==>
            && NameAccepted(names, base.settings, q.name) && loaded.Some? && base.scheme.Https? && works
            && !(q.skipIfUnchanged && now.generation == g && now.tls == Some(q.tls))
  {
    if q.name.Some? {
      RefusedIsInvalid(names, WithHost(base.settings, q.name.value).endpoint);
    }
  }

  lemma ActivateConsistent(names: Names, st: State, p: Candidate)
    requires CandidateOk(names, p, st.scheme) && p.settings.endpoint.scheme == st.scheme
    ensures Consistent(names, Activate(st, p))
  {
  }

  /** The handle callers share. A `Client` is changed only by the operation holding its
      reconfiguration lock, so each method here is one such operation from start to end. */
  class Client {
    const owner: nat
    var transport: Transport
    var generation: Generation
    var revision: nat
    var settings: Settings
    var tls: Option<TlsPaths>
    const scheme: Scheme

    function Now(): State
      reads this
    {
      State(transport, generation, revision, settings, tls, scheme)
    }

    constructor (owner: nat, st: State)
      ensures this.owner == owner && Now() == st
    {
      this.owner := owner;
      transport, generation, revision := st.transport, st.generation, st.revision;
      settings, tls, scheme := st.settings, st.tls, st.scheme;
    }

    method ConfigureServerName(names: Names, name: Option<string>, works: bool) returns (o: Outcome)
      requires Consistent(names, Now())
      modifies this
      ensures o == Reconfigure(names, old(Now()), ServerName(name, works))
      ensures Now() == if o.Committed? then o.state else old(Now())
      ensures Consistent(names, Now())
    {
      ReconfigureConsistent(names, Now(), ServerName(name, works));
      if tls.Some? {
        return Rejected(InvalidEndpoint);
      }
      var c := settings;
      if name.Some? {
        if !ValidServerName(names, name.value) {
          return Rejected(InvalidEndpoint);
        }
        c := WithHost(c, name.value);
        if !ValidEndpoint(names, c.endpoint) {
          return Rejected(InvalidEndpoint);
        }
      }
      if generation.Plain? && NormalizeHost(settings.endpoint.host) == NormalizeHost(c.endpoint.host) {
        return Unchanged;
      }
      match BuildPlain(names, c, scheme, works) {
        case None => return Rejected(BuildFailed);
        case Some(t) =>
          transport, generation, revision, settings := t, Plain, NextRevision(revision), c;
          return Committed(Now());
      }
    }

    method ConfigureInsecureHttps(names: Names, works: bool) returns (o: Outcome)
      requires Consistent(names, Now())
      modifies this
      ensures o == Reconfigure(names, old(Now()), InsecureHttps(works))
      ensures Now() == if o.Committed? then o.state else old(Now())
      ensures Consistent(names, Now())
    {
      ReconfigureConsistent(names, Now(), InsecureHttps(works));
      if !scheme.Https? {
        return Rejected(InvalidEndpoint);
      }
      var c := settings.(acceptInvalid := true);
      if generation.Plain? && tls.None? && settings.acceptInvalid {
        return Unchanged;
      }
      match BuildPlain(names, c, scheme, works) {
        case None => return Rejected(BuildFailed);
        case Some(t) =>
          transport, generation, revision, settings, tls := t, Plain, NextRevision(revision), c, None;
          return Committed(Now());
      }
    }

    method UpdateCredentials(names: Names, creds: Credentials)
      requires Consistent(names, Now())
      modifies this
      ensures Committed(Now()) == Reconfigure(names, old(Now()), NewCredentials(creds))
      ensures Consistent(names, Now())
    {
      transport := transport.(credentials := creds);
      revision := NextRevision(revision);
      settings := settings.(credentials := creds);
    }

    /** `probe` is whether the read-only request through the chosen transport succeeded. */
    method ActivatePrepared(p: Candidate, probe: bool) returns (o: Outcome)
      modifies this
      ensures var own, current := owner == p.owner, old(revision) == p.basedOn;
              var active := old(generation) == p.generation && old(tls) == Some(p.tls);
              && (o.Committed? <==> own && current && probe)
              && (o == Rejected(Foreign) <==> !own)
              && (o == Rejected(Stale) <==> own && !current && !active)
              && (o.Unchanged? <==> own && !current && active && probe)
              && (o == Rejected(ProbeFailed) <==> own && (current || active) && !probe)
      ensures o.Committed? ==>
                && transport == p.transport && generation == p.generation && settings == p.settings
                && tls == Some(p.tls) && revision == (old(revision) + 1) % 0x1_0000_0000_0000_0000
                && o.state == Now()
      ensures Now() == if o.Committed? then Activate(old(Now()), p) else old(Now())
    {
      if owner != p.owner {
        return Rejected(Foreign);
      }
      var active := false;
      if revision != p.basedOn {
        if generation == p.generation && tls == Some(p.tls) {
          active := true;
        } else {
          return Rejected(Stale);
        }
      }
      if !probe {
        return Rejected(ProbeFailed);
      }
      if active {
        return Unchanged;
      }
      transport, generation, revision := p.transport, p.generation, NextRevision(revision);
      settings, tls := p.settings, Some(p.tls);
      return Committed(Now());
    }
  }
}
