# Verified models of nv-rms

nv-rms manages racks: it talks to switches over the NVUE REST API and over a command line, runs
diagnostic tools, collects logs and builds release bundles. This project models the parts of it that
carry state across concurrent steps or that promise something about every input, and proves those
promises.

`dafny verify dfyconfig.toml` checks everything. The modules follow the program:

- `LauncherRegistry`, `LauncherProtocol`, `LauncherCleanup`: the NVSSVT launch server. Requests
  interleave freely between the sections that hold the registry lock. The schedule, file times, process
  exits and failures are choices of the environment.
- `ClientState`, `ClientSystem`: the NVUE client. Its settings, transport and TLS generation are replaced
  by operations that interleave across any number of clients and callers, with a probe between preparing
  a replacement and committing it.
- `TlsSnapshot`: loading three rotating PEM files and the byte stream of the fingerprint.
- `SwitchCommands`, `CommandFlow`, `UnsetMtls`: command lines for a switch, flows of steps with fallbacks
  and benign failures, and the flow that clears mutual TLS.
- `CollectLifecycle`, `DutDirs`: nvdebug collections, the claim on an output directory and the private
  directory each owns.
- `PercentEncoding`, `UrlPaths`, `EncodedSeparators`, `EndpointGuard`: percent-encoding, the resolution of
  references by the WHATWG URL Standard, and the guard on endpoints.
- `LogSanitizer`: replacing secrets in logs. `RevisionIssues`: issue search and summaries.
  `ReleaseClosure`: the release's package selection.
- `Text`: string operations and a fact on finite sets the others share.

Reads of the clock, the file system, the network and foreign libraries are parameters: a listing, a
reply, a probe result, a function that says whether a text is a server name.

## Properties that fail, and when they hold

- A recursive delete can hit the directory of a run that has just started, when its run id was used
  before: two deletes of the old directory overlap, and the slower one ends after the new launch. Every
  interleaving is safe exactly when, for each id that is shared with another request or with a leftover
  directory, the retention limit covers all directories there can be around it
  (`SafeExactlyWhenCovered`); so ids used once are safe under any limit (`UnsharedIdsAreSafe`).
- The revision that guards an activation is a 64-bit counter that wraps. A candidate is let through
  exactly when a multiple of 2^64 commits came in between (`AdmittedExactlyWhenCurrent`).
- Two equal reads of the PEM files need not be one coherent generation. They are for every schedule
  exactly when the certificate never goes back to earlier content and not both of the other files do
  (`CoherentExactlyWhen`).
- A list naming gNMI twice and nothing else can leave a cleared binding unsaved, since the second step
  completes the flow (`SavedExactlyWhen`).
- Two collections can leave their logs in one output directory: a run that is dropped or stopped releases
  its claim without waiting for every process of its nvdebug. It stays impossible exactly when no run that
  may be stopped while its nvdebug lives and has left no log shares its directory (`ApartExactlyWhen`).
- A summary can show what the text search does not find. They agree exactly when one nested text is the
  whole summary (`AgreeExactlyWhen`).
- The endpoint check reads the text as given, while the URL parser first strips tabs, newlines and
  surrounding space, reads two leading separators as an authority, and looks for parent segments only before
  the query. An accepted endpoint is resolved as written exactly when the stripped text names no authority and
  its path has no parent segment (`AcceptedPopsNothing`); `ParentBeforeQuery` and `ParentAroundTab` give
  accepted endpoints that are not. Stripping can bring out an encoded separator in the same way
  (`AcceptedShowsSeparator`).

## Model

| member | source | states |
|---|---|---|
| LauncherProtocol.ClaimsOwnedStep | docker/nvssvt/nvssvt_server.py:286-334 | every step of every request keeps claims and registrations disjoint and each claim with exactly one owner in flight |
| LauncherProtocol.RegistrationsSoundStep | docker/nvssvt/nvssvt_server.py:324-334 | a registration always names a request that finished its launch under that id |
| LauncherProtocol.RegistrationKept | docker/nvssvt/nvssvt_server.py:222-230 | no step, cleanup or later registration, drops the registration of a process that runs |
| LauncherProtocol.ProcessesTrackedStep | docker/nvssvt/nvssvt_server.py:308-334 | a process that runs is registered, or its launch is about to register it |
| LauncherProtocol.ClaimsHaveOneOwner | docker/nvssvt/nvssvt_server.py:286-334 | in every interleaving reserved and registered ids are disjoint, an id is reserved exactly when one request in flight owns it, and a request that ended by success or failure owns none |
| LauncherProtocol.RunningRunsStayRegistered | docker/nvssvt/nvssvt_server.py:199-341 | in every interleaving a running process of a finished launch is registered, no step unregisters it, and a launch registers only an id that has no registration |
| LauncherProtocol.CheckExactly | docker/nvssvt/nvssvt_server.py:222-230 | a cleanup forgets a run and starts to delete its directory exactly when the id is neither reserved nor that of a running process, and leaves every other registration alone |
| LauncherProtocol.LaunchGoesOnExactly | docker/nvssvt/nvssvt_server.py:286-306 | a launch reserves its id exactly when it is neither registered nor reserved, and makes its directory exactly when there is none of that name |
| LauncherProtocol.LaunchEndsExactly | docker/nvssvt/nvssvt_server.py:293-334 | the end of a launch turns its own claim into a registration of its own process, or gives it back, and touches nothing else |
| LauncherProtocol.StepTouches | docker/nvssvt/nvssvt_server.py:199-334 | a step changes a directory only by deleting its target or by making its own |
| LauncherProtocol.LaunchesGoOn | docker/nvssvt/nvssvt_server.py:261-341 | a launch that has not ended can always take a step |
| LauncherProtocol.RefusalLeavesAll | docker/nvssvt/nvssvt_server.py:261-291 | a request can be refused before its cleanup and before its claim, and that changes nothing |
| LauncherProtocol.LaunchCanFail | docker/nvssvt/nvssvt_server.py:293-322 | making the directory and starting the process can fail, with claim and directory kept for the rollback |
| LauncherProtocol.ProcessesExit | docker/nvssvt/nvssvt_server.py:225-228 | a process can exit exactly while it runs, and nothing else changes by that |
| LauncherProtocol.ChooseApart | docker/nvssvt/nvssvt_server.py:207-220 | when shared ids are covered, a cleanup that has a victim chooses no directory of a request that has not made one, and never a shared id of its own |
| LauncherProtocol.CleanupApartStep | docker/nvssvt/nvssvt_server.py:207-230 | every step keeps a cleanup from deleting a directory that another request has yet to make or is using |
| LauncherProtocol.UndoApartStep | docker/nvssvt/nvssvt_server.py:308-322 | every step keeps the delete after a failed launch from meeting a later launch of the same id |
| LauncherProtocol.OwnDirStep | docker/nvssvt/nvssvt_server.py:293-334 | the directory of a live request stays its own and whole |
| LauncherProtocol.CoveredIdsAreSafe | docker/nvssvt/nvssvt_server.py:199-334 | when shared ids are covered, in every interleaving each running process has its own undamaged directory |
| LauncherProtocol.UnsharedIdsAreSafe | docker/nvssvt/nvssvt_server.py:199-334 | the same for ids that are used once, leftovers counted, under any retention limit |
| LauncherProtocol.DeleteOutlivesRelaunch | docker/nvssvt/nvssvt_server.py:220-230 | from any reachable state in which a delete of a name is under way, a request for that name can lose the directory of its running process |
| LauncherProtocol.UncoveredIdsAreUnsafe | docker/nvssvt/nvssvt_server.py:199-334 | when a shared id is not covered, a schedule that deletes a running process's directory exists |
| LauncherProtocol.SafeExactlyWhenCovered | docker/nvssvt/nvssvt_server.py:199-334 | for every configuration, all interleavings are safe if and only if shared ids are covered by the retention limit |
| LauncherCleanup.SortIsDescending | docker/nvssvt/nvssvt_server.py:217-217 | the sort orders directories by descending modification time |
| LauncherCleanup.SortedByRank | docker/nvssvt/nvssvt_server.py:217-217 | the stable sort puts every directory at its rank: the number of directories that are newer, or equally new and listed earlier |
| LauncherCleanup.AtRank | docker/nvssvt/nvssvt_server.py:217-217 | every sorted position is the rank of a directory, so the sort loses and adds nothing |
| LauncherCleanup.VictimsBySortedPosition | docker/nvssvt/nvssvt_server.py:219-230 | slicing the sorted list at the limit selects the directories whose rank reaches it |
| LauncherCleanup.VictimExactly | docker/nvssvt/nvssvt_server.py:217-230 | a victim is a directory with at least the retained number of others newer, or as new and listed earlier, whose modification time plus the minimum age has passed, and whose name is neither reserved nor that of a running process |
| LauncherCleanup.RetainsNewer | docker/nvssvt/nvssvt_server.py:207-230 | a victim leaves at least the retained number of other directories that are no older than it and no victims themselves |
| LauncherCleanup.DatedExactly | docker/nvssvt/nvssvt_server.py:191-216 | a directory is dated exactly when the listing has it as a directory with that modification time |
| LauncherCleanup.DatedInOrder | docker/nvssvt/nvssvt_server.py:211-216 | dated directories come in listing order, each as often as listed |
| LauncherCleanup.Launcher.ListDirs | docker/nvssvt/nvssvt_server.py:211-216 | the loop returns the dated directories of the listing in listing order |
| LauncherCleanup.Launcher.CleanupOldRuns | docker/nvssvt/nvssvt_server.py:199-230 | a cleanup alone unregisters and deletes exactly the directories ranked beyond the limit that are old enough and neither reserved nor running; all else stays |
| LauncherCleanup.Launcher.LaunchRun | docker/nvssvt/nvssvt_server.py:286-341 | a launch alone registers its process, or fails and leaves registry, claims and directories as they were |
| ClientState.NormalizeServerName | crates/nvue_client/src/client.rs:1629-1644 | normalizing a host is idempotent once the first pass left a server name |
| ClientState.NormalizeExactly | crates/nvue_client/src/client.rs:1629-1634 | normalizing takes away surrounding white space and then one pair of brackets, and nothing else |
| ClientState.BaseUrlReads | crates/nvue_client/src/client.rs:247-254 | the URL is the scheme, the normalized authority, bracketed when it is an IPv6 address, and the port |
| ClientState.ClientTlsMatches | crates/nvue_client/src/client.rs:1540-1592 | a client-TLS transport carries the normalized host, the verification flag, the base URL and the credentials of its settings |
| ClientState.ConstructConsistent | crates/nvue_client/src/client.rs:683-767 | each of the three ways to construct a client gives a client whose parts agree |
| ClientState.ConstructExactly | crates/nvue_client/src/client.rs:203-245 | each constructor succeeds exactly for an endpoint with none of the listed faults and when what it needs is there, and the client holds just what it was given at revision zero |
| ClientState.ReconfigureConsistent | crates/nvue_client/src/client.rs:1063-1150 | every committed reconfiguration or credential update keeps the parts in agreement |
| ClientState.ServerNameExactly | crates/nvue_client/src/client.rs:1063-1107 | a change of authority commits exactly without client TLS, with an accepted name that is new, when a client can be built; the authority is all that changes |
| ClientState.InsecureExactly | crates/nvue_client/src/client.rs:1111-1150 | turning verification off commits exactly over HTTPS unless it is off already without client TLS; it drops client TLS and changes nothing else |
| ClientState.CredentialsExactly | crates/nvue_client/src/client.rs:1337-1357 | new credentials always commit, reach settings and transport alike and advance the revision |
| ClientState.PrepareOk | crates/nvue_client/src/client.rs:1223-1278 | a prepared candidate is coherent, bound to its owner and revision, and as requested: it accepts invalid certificates never when verification is required, always when it is waived and as configured otherwise, has the authority asked for or the old one, the loaded identity, the given files, the old connect host, port and credentials |
| ClientState.PreparedExactly | crates/nvue_client/src/client.rs:1223-1278 | a candidate comes about exactly when the name is accepted, the material was loaded, the scheme is HTTPS and a client can be built, unless the caller skips what is active already |
| ClientState.ActivateConsistent | crates/nvue_client/src/client.rs:1324-1331 | activating a coherent candidate keeps the parts in agreement |
| ClientState.Client.ConfigureServerName | crates/nvue_client/src/client.rs:1063-1107 | commits, leaves alone or rejects as specified; a client that was consistent stays so, and nothing changes without a commit |
| ClientState.Client.ConfigureInsecureHttps | crates/nvue_client/src/client.rs:1111-1150 | likewise for turning verification off, which also drops client TLS |
| ClientState.Client.UpdateCredentials | crates/nvue_client/src/client.rs:1337-1357 | transport and settings get the same credentials and the revision moves on |
| ClientState.Client.ActivatePrepared | crates/nvue_client/src/client.rs:1286-1334 | commits exactly a candidate of this client at its revision whose probe succeeded; each refusal has its own condition and changes nothing |
| ClientSystem.InvStep | crates/nvue_client/src/client.rs:1223-1392 | every step of every caller, cancellation included, keeps revisions, stored candidates, locks and the activation log true of the histories |
| ClientSystem.SoundStep | crates/nvue_client/src/client.rs:683-767 | every step keeps every state in every history consistent and every candidate usable |
| ClientSystem.ClientsStayConsistent | crates/nvue_client/src/client.rs:525-548 | in every reachable system: plain exactly without TLS paths; client TLS only over HTTPS with the normalized host and the configured verification; transport credentials and URL are those of the settings, and the connection goes to their connect host and port |
| ClientSystem.RevisionsRecur | crates/nvue_client/src/client.rs:1324-1331 | two states of a client have equal revisions exactly when a multiple of 2^64 commits lies between them |
| ClientSystem.ActivationsAreCurrent | crates/nvue_client/src/client.rs:1286-1334 | every activation that took effect did so on the preparing client and, with fewer than 2^64 commits in between, on the very state it was prepared from; it keeps credentials, connect host, port and scheme, and what runs afterwards has the files, identity, authority and verification of the request |
| ClientSystem.AdmittedExactlyWhenCurrent | crates/nvue_client/src/client.rs:1294-1312 | a candidate is admitted if and only if the client prepared it and the commits since are a multiple of 2^64 |
| ClientSystem.TurnedDownExactly | crates/nvue_client/src/client.rs:1294-1312 | an activation refuses exactly the candidates of another client, and of its own those neither current nor active already |
| ClientSystem.FailureLeavesAll | crates/nvue_client/src/client.rs:1280-1334 | a failed or cancelled probe leaves every client and candidate as they were and frees the client |
| ClientSystem.CloneRefusesCandidates | crates/nvue_client/src/client.rs:1366-1392 | a clone is its source with other credentials, at its revision, and still refuses its candidates |
| ClientSystem.SuccessMeansActive | crates/nvue_client/src/client.rs:1280-1334 | in every interleaving an activation that reports success leaves the candidate's generation and TLS paths active, committed or already there |
| ClientSystem.WrapRevivesCandidate | crates/nvue_client/src/client.rs:1286-1357 | after 2^64 credential updates a candidate commits and puts old credentials back |
| ClientSystem.CandidateExists | crates/nvue_client/src/client.rs:1223-1278 | every valid HTTPS endpoint has a client with a candidate prepared from its current state |
| ClientSystem.WrapHappens | crates/nvue_client/src/client.rs:1286-1357 | so on every such endpoint the wrap can bring old credentials back |
| TlsSnapshot.LoadStableSnapshot | crates/nvue_client/src/tls.rs:108-125 | returns the second of the first adjacent collects that agree, within four collects; reports instability only when every adjacent pair differs, and a read failure only from the collect it reached |
| TlsSnapshot.CollectExactly | crates/nvue_client/src/tls.rs:127-137 | a collect has what the three reads found, or fails with the first of CA, certificate, key whose read fails |
| TlsSnapshot.LoadFromDisk | crates/nvue_client/src/tls.rs:108-137 | a snapshot loaded from rotating files is material they held together at one instant |
| TlsSnapshot.MatchedCollectsCoexisted | crates/nvue_client/src/tls.rs:109-137 | two agreeing collects coexisted on disk, for any rotation in which the certificate and one other file never return to earlier content |
| TlsSnapshot.CertMustNotReturn | crates/nvue_client/src/tls.rs:109-137 | a schedule with a returning certificate whose agreeing collects never coexisted |
| TlsSnapshot.CaOrKeyMustNotReturn | crates/nvue_client/src/tls.rs:109-137 | the same with CA and key returning |
| TlsSnapshot.CoherentExactlyWhen | crates/nvue_client/src/tls.rs:109-137 | agreeing collects are coherent for every schedule if and only if the certificate never returns and not both other files may |
| TlsSnapshot.FeedHasher | crates/nvue_client/src/tls.rs:80-106 | the hasher gets length and content of CA, certificate and key in that order; the identity is certificate then key |
| TlsSnapshot.LittleEndianInjective | crates/nvue_client/src/tls.rs:88-95 | equal little-endian encodings of one width come from equal numbers |
| TlsSnapshot.LittleEndianValue | crates/nvue_client/src/tls.rs:88-95 | the encoded bytes have the encoded value, least significant first |
| TlsSnapshot.StreamInjective | crates/nvue_client/src/tls.rs:88-95 | a stream of framed byte strings determines each of them |
| TlsSnapshot.FingerprintInputInjective | crates/nvue_client/src/tls.rs:88-95 | different material gives the hasher a different stream, wherever file boundaries lie |
| SwitchCommands.NewNvPath | crates/nvswitch_cli/src/command.rs:30-71 | a path is accepted exactly when it is non-empty and no segment is empty, starts with a dash or has another character than letters, digits, dash and underscore; else the first bad segment is reported |
| SwitchCommands.DisplayNvPath | crates/nvswitch_cli/src/command.rs:73-87 | the display loop joins the segments with single spaces |
| SwitchCommands.NewRemotePath | crates/nvswitch_cli/src/command.rs:106-128 | a remote path is refused exactly when it is empty, starts with a dash or contains NUL or a line break |
| SwitchCommands.Quoted | crates/nvswitch_cli/src/command.rs:141-155 | the quoting loop computes the quoted text that `LexQuoted` reads back |
| SwitchCommands.OctalRoundTrip | crates/nvswitch_cli/src/command.rs:183-202 | the octal text of a file mode denotes that mode |
| SwitchCommands.LexQuoted | crates/nvswitch_cli/src/command.rs:141-155 | by the POSIX shell's quoting rules any quoted path is one word equal to the path |
| SwitchCommands.ShellReadsBack | crates/nvswitch_cli/src/command.rs:683-699 | a rendered shell command tokenizes to its fixed words, operators and one word per path |
| SwitchCommands.ShellRoundTrip | crates/nvswitch_cli/src/command.rs:683-699 | every shell command is recovered from its rendered line |
| SwitchCommands.NvReadsBack | crates/nvswitch_cli/src/command.rs:602-607 | an `nv` line tokenizes to `nv`, the fixed words and every path segment unchanged |
| SwitchCommands.NvUnsetReadsBack | crates/nvswitch_cli/src/command.rs:507-511 | so does the unset command |
| SwitchCommands.NvActionReadsBack | crates/nvswitch_cli/src/command.rs:521-528 | so does an action command with its verb |
| SwitchCommands.NvConfigReadsBack | crates/nvswitch_cli/src/command.rs:512-520 | so does a configuration command with its arguments |
| SwitchCommands.NvFactoryResetReadsBack | crates/nvswitch_cli/src/command.rs:542-544 | so does the factory reset |
| SwitchCommands.NvManagerMtlsReadsBack | crates/nvswitch_cli/src/command.rs:582-600 | so does the update that turns a cluster manager's mutual TLS on |
| SwitchCommands.UnsetMtlsReads | crates/nvswitch_cli/src/command.rs:546-560 | the command that clears each service reads back as its words, one by one |
| SwitchCommands.UnsetGnmiCaReads | crates/nvswitch_cli/src/command.rs:572-580 | so does the other spelling for gNMI |
| SwitchCommands.NvRenderInjective | crates/nvswitch_cli/src/command.rs:73-87 | different verbs or paths render to different lines |
| CommandFlow.StepIsSane | crates/nvswitch_cli/src/handler.rs:389-475 | a step that lets the flow go on succeeded or is benign by its own policy, and only that policy completes a flow early |
| CommandFlow.FlowIsShaped | crates/nvswitch_cli/src/handler.rs:298-386 | for every flow, reply sequence and stop signal: one entry per step, passed entries, then at most one failed, then only not attempted, with the ending that fits; a step completes the flow early exactly by its benign policy; the caller agreed before each attempted step |
| CommandFlow.StepIsTruthful | crates/nvswitch_cli/src/handler.rs:389-494 | a step sends its primary once and its fallback at most once, after the primary failed, and its status is true of the replies |
| CommandFlow.SucceedsExactly | crates/nvswitch_cli/src/handler.rs:480-494 | a command succeeds exactly when the transport does and, for a file confirmation, some line of the output reads `ok`, white space aside; else the failure says what the source says |
| CommandFlow.BenignExactly | crates/nvswitch_cli/src/flow.rs:56-93 | which messages are benign for each reason, in any case |
| CommandFlow.BothFailedReads | crates/nvswitch_cli/src/handler.rs:440-453 | the message and classification of a step whose two forms failed, for every subject |
| CommandFlow.ReportAgreesWithTrace | crates/nvswitch_cli/src/handler.rs:298-475 | the commands sent are exactly those the report's statuses stand for, in order, and each status is true of the replies to its own commands |
| CommandFlow.AbortKeepsPrimaryCode | crates/nvswitch_cli/src/handler.rs:426-453 | a failed step reports the classification of its primary command's failure |
| CommandFlow.RunLoop | crates/nvswitch_cli/src/handler.rs:318-386 | the loop that fills the report in place computes the specified run |
| CommandFlow.RunFlowWhile | crates/nvswitch_cli/src/handler.rs:298-386 | the report has one entry per step, with its subject; its statuses have that shape, are true of the replies and stand for exactly the commands sent; it is an error exactly when a step failed, with that step's failure |
| UnsetMtls.UnsetStepExactly | crates/nvswitch_cli/src/flow.rs:315-336 | for each service the words of its command and of the other spelling it may try, which failures it tolerates and what a tolerated one does to the flow |
| UnsetMtls.FlowExactly | crates/nvswitch_cli/src/flow.rs:302-352 | one such step per service in order, then apply and save, which tolerate nothing; an absent gNMI schema completes the flow exactly when gNMI is all that is listed |
| UnsetMtls.PersistsInOrder | crates/nvswitch_cli/src/flow.rs:302-352 | in every run apply is sent only after every unset step passed, and save only after apply succeeded |
| UnsetMtls.ShapedIsSaved | crates/nvswitch_cli/src/flow.rs:302-352 | unless gNMI alone is listed twice or more, an uninterrupted successful run saved the change or cleared nothing |
| UnsetMtls.GnmiTwiceLeavesUnsaved | crates/nvswitch_cli/src/flow.rs:312-340 | with gNMI alone listed twice or more, replies exist for which a cleared binding is left unsaved |
| UnsetMtls.SavedExactlyWhen | crates/nvswitch_cli/src/flow.rs:302-352 | no run leaves a change unsaved if and only if gNMI is not the only service listed at least twice |
| CollectLifecycle.LocksMatchStep | crates/nvdebug_cli/src/io.rs:394-422 | every step keeps each lock with the one run whose phase holds it |
| CollectLifecycle.DirBookedStep | crates/nvdebug_cli/src/dut_dir.rs:50-121 | every step keeps the count of removals of a private directory what its run's phase says |
| CollectLifecycle.WritersKnownStep | crates/nvdebug_cli/src/io.rs:213-256 | every step keeps a live nvdebug with a run that started it, whether that run still waits, has returned or was dropped |
| CollectLifecycle.LogsAloneStep | crates/nvdebug_cli/src/io.rs:394-422 | every step that orphans no process without logs, save of runs alone on their directory, keeps each directory with one run's logs |
| CollectLifecycle.OneRunPastClaim | crates/nvdebug_cli/src/io.rs:165-211 | in every interleaving at most one run is past its claim on an output directory, and it holds the lock |
| CollectLifecycle.ClaimExactly | crates/nvdebug_cli/src/io.rs:394-422 | a claim succeeds exactly when the lock is free and the directory holds no run |
| CollectLifecycle.RunsGoOn | crates/nvdebug_cli/src/io.rs:165-256 | a run that has neither returned nor been dropped can always take a step |
| CollectLifecycle.DropLeaves | crates/nvdebug_cli/src/io.rs:394-422 | a dropped future leaves a claim that may lock late, a check that keeps the lock until done, a directory that may still be made or one its guard removes, according to the stage it was at; it stops no process |
| CollectLifecycle.OrphansGoOn | crates/nvdebug_cli/src/dut_dir.rs:50-72 | what a dropped run left in the pool goes on to its end |
| CollectLifecycle.RemovalsCanEnd | crates/nvdebug_cli/src/dut_dir.rs:85-121 | a removal that was started can end |
| CollectLifecycle.FailuresAtEveryStage | crates/nvdebug_cli/src/io.rs:165-256 | the claim, the private directory and the run can fail or be dropped at every stage; a failed run starts the removal |
| CollectLifecycle.CompleteRun | crates/nvdebug_cli/src/io.rs:165-211 | alone on a free and empty directory a run can return with its logs left, its private directory removed and its claim released |
| CollectLifecycle.OneRemovalEach | crates/nvdebug_cli/src/dut_dir.rs:50-121 | a private directory has at most one removal started, and exactly one once its run ended and nothing is left in the pool |
| CollectLifecycle.ReturnAwaitsRemoval | crates/nvdebug_cli/src/io.rs:165-211 | a run that made its directory returns, and gives the claim up, only after the removal ended; only a dropped future gives it up sooner |
| CollectLifecycle.OneRunPerOutputDirectory | crates/nvdebug_cli/src/io.rs:384-422 | no output directory holds the logs of two runs, as long as every run stopped while its nvdebug lives and has left no log has the directory to itself |
| CollectLifecycle.OrphanShares | crates/nvdebug_cli/src/io.rs:213-256 | a run that is so stopped and shares its directory can leave its logs beside another's |
| CollectLifecycle.ApartExactlyWhen | crates/nvdebug_cli/src/io.rs:165-256 | directories always hold one run's logs if and only if no run that may be so stopped shares its directory |
| DutDirs.ParsedExactly | crates/nvdebug_cli/src/dut_dir.rs:202-210 | a name parses to a process id if and only if it is the prefix, digits denoting that id within 32 bits, a dash and a non-empty suffix |
| DutDirs.NameRoundTrip | crates/nvdebug_cli/src/dut_dir.rs:53-57 | every created name parses back to its creator's process id |
| DutDirs.StaleExactly | crates/nvdebug_cli/src/dut_dir.rs:176-197 | the sweep selects a name exactly when a directory has it that spells an id, and that id is this process's or does not run |
| DutDirs.StaleInOrder | crates/nvdebug_cli/src/dut_dir.rs:176-197 | the selection follows the listing |
| DutDirs.StaleDirs | crates/nvdebug_cli/src/dut_dir.rs:176-197 | the loop returns the stale directories in listing order, or fails exactly when an entry could not be read |
| DutDirs.SweepSparesOthers | crates/nvdebug_cli/src/dut_dir.rs:176-210 | every selected name has the created shape and an id that is this process's or does not run |
| DutDirs.DutDir.Remove | crates/nvdebug_cli/src/dut_dir.rs:85-91 | starts the removal of the owned directory and owns none afterwards |
| DutDirs.DutDir.Release | crates/nvdebug_cli/src/dut_dir.rs:93-121 | dropping the handle starts the removal unless one was started |
| DutDirs.DutDir.UseThenDrop | crates/nvdebug_cli/src/dut_dir.rs:85-121 | removed or not, a handle that is dropped has started exactly one removal |
| LogSanitizer.OrderedLiterals | crates/common/src/log_sanitize.rs:121-133 | ordering keeps exactly the non-empty secrets, longest first |
| LogSanitizer.OrderedExactly | crates/common/src/log_sanitize.rs:121-133 | every non-empty secret stays as often as listed, by descending bytes of UTF-8 and then lexically |
| LogSanitizer.BuildPatterns | crates/common/src/log_sanitize.rs:135-147 | the loop builds one guarded pattern per literal, in order |
| LogSanitizer.PatternIsGuard | crates/common/src/log_sanitize.rs:32-146 | a pattern matches exactly where its literal occurs and, on a side where it has a letter, digit or underscore, none of those is next to it |
| LogSanitizer.FirstIsLongest | crates/common/src/log_sanitize.rs:121-147 | where several literals match, the first alternative is at least as long as each |
| LogSanitizer.SpansAreLongest | crates/common/src/log_sanitize.rs:184-194 | every replaced span is the longest listed secret that matches at its start |
| LogSanitizer.EveryOccurrenceIsCovered | crates/common/src/log_sanitize.rs:184-194 | the first character of every guarded occurrence of a secret is replaced, and all of the occurrence unless it starts strictly inside an earlier replaced span |
| LogSanitizer.SanitizeReplacesSpans | crates/common/src/log_sanitize.rs:184-194 | the result is the input with exactly those spans replaced and all other text kept |
| LogSanitizer.OrderDoesNotMatter | crates/common/src/log_sanitize.rs:121-194 | the result depends only on which non-empty secrets are listed |
| PercentEncoding.EncodeBytes | crates/nvue_client/src/uri.rs:28-42 | the byte loop computes the percent-encoding |
| PercentEncoding.EncodeExactly | crates/nvue_client/src/uri.rs:18-49 | letters, digits and `-._~` stand for themselves, every other byte is `%` and two upper-case hexadecimal digits |
| PercentEncoding.DecodeEncode | crates/nvue_client/src/uri.rs:20-49 | percent-decoding returns every byte string that was encoded |
| PercentEncoding.EscapeShows | crates/nvue_client/src/uri.rs:28-49 | the lower-cased encoding contains the escape of a byte exactly when that byte was in the value and is not unreserved |
| EndpointGuard.DoubleDotIsParent | crates/common/src/net.rs:54-59 | the guard's four spellings are exactly the double-dot segments of the WHATWG URL Standard: two dots, each plain or escaped in either case |
| EndpointGuard.EncodedSpells | crates/nvue_client/src/uri.rs:28-49 | an encoded value is a run of dots, however spelled, exactly when the value is that run of dots |
| UrlPaths.StripExactly | crates/common/src/net.rs:126-133 | controls and space go from both ends of a reference |
| UrlPaths.DropExactly | crates/common/src/net.rs:126-133 | tabs and newlines go from inside it, and nothing else |
| UrlPaths.ResolveExactly | crates/common/src/net.rs:126-133 | a reference with an authority is resolved exactly when that is the base's origin, to the path behind it |
| UrlPaths.ReencodedSpells | crates/common/src/net.rs:126-133 | re-encoding a segment neither makes nor hides a dot, for every character set that leaves unreserved characters and `%` alone |
| UrlPaths.StateExactly | crates/common/src/net.rs:126-133 | the path state keeps all segments, single dots aside, if and only if none of them is a parent segment |
| UrlPaths.AuthorityChanges | crates/common/src/net.rs:126-133 | a reference that names the base's own authority is never resolved as written |
| UrlPaths.ResolvedAsWritten | crates/common/src/net.rs:126-133 | every reference the parser can read is resolved as written if and only if it names no authority and its path has no parent segment |
| EndpointGuard.GuardExactly | crates/common/src/net.rs:105-155 | an endpoint is let through exactly when it starts with a slash, shows no parent segment and no encoded separator, reads as a path of this origin, and that path is the required tree or continues it with a slash |
| EndpointGuard.SiblingRefused | crates/common/src/net.rs:101-142 | a sibling whose name only begins like the tree is refused |
| EndpointGuard.AcceptedPopsNothing | crates/common/src/net.rs:54-155 | every accepted endpoint, of any characters, lies in the required tree and is resolved as written if and only if after stripping it names no authority and its path has no parent segment; that is so whenever nothing is stripped and it has no query, fragment or authority |
| EncodedSeparators.ShowsInSegments | crates/common/src/net.rs:75-81 | a text shows an escape exactly when one of its segments does |
| EncodedSeparators.ReencodedShows | crates/common/src/net.rs:75-81 | re-encoding a segment neither shows nor hides an encoded separator |
| EncodedSeparators.ResolvedShows | crates/common/src/net.rs:61-81 | the resolved path shows an encoded separator only if the reference does, and always then when it is resolved as written |
| EndpointGuard.AcceptedShowsSeparator | crates/common/src/net.rs:61-155 | the path of an accepted endpoint shows an encoded separator only if the stripped text has one, so never when nothing is stripped; for endpoints resolved as written, if and only if it has one |
| EndpointGuard.ParentBeforeQuery | crates/common/src/net.rs:115-124 | an endpoint whose last path segment is a parent segment before a query passes and resolves to the parent |
| EndpointGuard.ParentAroundTab | crates/common/src/net.rs:115-133 | an endpoint with a tab inside a parent segment passes, and the parser drops the tab and pops the segment before |
| EndpointGuard.TabInstance | crates/common/src/net.rs:115-133 | so `/a/.`, a tab and `./b` resolves to `/b` |
| EndpointGuard.ActionTraversal | crates/common/src/net.rs:54-59 | the endpoint of an id has a parent segment exactly when the id is `..` |
| EndpointGuard.ActionEncodedSeparator | crates/common/src/net.rs:75-81 | it carries an encoded separator exactly when the id contains `/` or a backslash |
| EndpointGuard.ActionResolves | crates/nvue_client/src/action.rs:47-49 | it resolves to itself, or for the id `.` to its parent |
| EndpointGuard.AcceptedExactlyWhen | crates/common/src/net.rs:105-155 | it is accepted under `/nvue_v1` if and only if the id has no `/` or backslash and is not `..` |
| EndpointGuard.AcceptedNamesTheId | crates/common/src/net.rs:105-155 | when accepted, and unless the id is `.`, the path requested is the endpoint and its last segment decodes to the id |
| RevisionIssues.ListReads | crates/nvue_client/src/revision.rs:392-398 | a list shows what its values show, separated by `; `, leaving out those that show nothing |
| RevisionIssues.ObjectReads | crates/nvue_client/src/revision.rs:399-412 | an object shows every key, with what its value shows if anything, separated by `, ` |
| RevisionIssues.EverythingIsShown | crates/nvue_client/src/revision.rs:390-413 | the summary shows every text, key, flag and number of the tree, through all list and object joins |
| RevisionIssues.FoundIsShown | crates/nvue_client/src/revision.rs:378-413 | for every issue tree and needle, what the recursive search finds shows in the summary |
| RevisionIssues.ShownIsNotFound | crates/nvue_client/src/revision.rs:378-413 | the converse fails: a key shows in the summary and is not searched |
| RevisionIssues.FoundInText | crates/nvue_client/src/revision.rs:378-387 | the search finds a needle exactly when one of the nested texts contains it |
| RevisionIssues.AgreeExactlyWhen | crates/nvue_client/src/revision.rs:378-413 | the search finds everything the summary shows if and only if one nested text is the summary |
| RevisionIssues.StatusExactly | crates/nvue_client/src/revision.rs:234-311 | when each status is given: the two applied states first, then the no-difference message in some nested text, then the three failed states with the summary; anything else is pending |
| RevisionIssues.NoDiffIsShown | crates/nvue_client/src/revision.rs:268-311 | every no-difference status has a summary with the message, a failed revision whose summary lacks it stays a failure with that summary, and the two applied states outrank every issue |
| ReleaseClosure.RootsExactly | ci/generate_nvfwupd_open_source_bundle.py:49-54 | a package is a root exactly when the last one listed under its id is |
| ReleaseClosure.AddNeeded | ci/generate_nvfwupd_open_source_bundle.py:66-68 | the inner loop appends exactly the dependencies with some kind other than dev |
| ReleaseClosure.Closure | ci/generate_nvfwupd_open_source_bundle.py:58-69 | the worklist ends on every graph and selects exactly what the root reaches; a missing node it reports is one of those |
| ReleaseClosure.ReleaseDependencyIds | ci/generate_nvfwupd_open_source_bundle.py:48-69 | fails exactly without a single root, else selects exactly what that root reaches |

## Left out

- LauncherProtocol.UncoveredIdsAreUnsafe: file ages are choices of the environment, so the minimum age is taken to have passed.
- UrlPaths.ResolvedAsWritten: whether an authority reads as the base's origin is a parameter, and so is the set of characters that are re-encoded; the base is an http or https URL without a path.
- HTTP, TLS, DNS and the construction of HTTP clients: a transport is a record, building it and probing it succeed or fail at will.
- SHA-256: the stream it is fed is modelled, the hash is not.
- Regular expressions in general, and the built-in IPv4 and IPv6 patterns of the log sanitizer: only literal secrets with their boundary assertions are modelled.
- Compilation failures of the sanitizer's pattern: literals are escaped, so the pattern is taken to compile.
- Timeouts, settle delays, Unix signals and process groups: they are failures or interruptions that may come at any point, and a process may live on after any signal.
- The file mode builder: a mode is any number below 4096.
- Sweeping stale directories: the selection is modelled, the removal and its log lines are not.
- Environment variables of the launch server, request validation, status and log routes.
- The endpoint tables, typed requests, action completion policies and the Redfish side of the program: finite branching over strings that would only add easy members.
