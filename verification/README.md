# A verified model of wg-proxy

Dafny models of the stateful cores of wg-proxy, a WireGuard gateway that runs many
wireproxy tunnels behind SOCKS5 load balancers, serves VPN clients of its own, and steers
their traffic with iptables rules. Sockets, processes, files and shell commands appear only
through their outcomes: every operation takes the success or failure of its commands as a
parameter, and goroutines are state machines whose steps are the critical sections of the
source. `dafny verify dfyconfig.toml` checks everything.

| module | what it models |
|---|---|
| `Firewall`, `Routing`, `Nat` | the kernel rule tables, the routing controller's command lists, first-match packet evaluation, and the server's own NAT rules |
| `Address`, `Peers`, `WgServer` | the address allocator, the peer store with its file, and the server that keeps list, file and interface in step |
| `Tunnels`, `Country` | the tunnel list over a shared backing array, its ports and snapshots, and the per-country listeners |
| `Lifecycle` | one tunnel's process under interleaved start, stop, process waiter and health checker |
| `RoundRobin`, `Retry` | ticket-based selection, and the retry loop with exact reply framing |
| `Socks`, `Decimal` | authentication, request parsing, and the hand-written number printer and parser |
| `GoldPool` | the bounded concurrent deep check and the pool it publishes |

## What the proofs show about the code

Several natural claims fail, and the exact condition is proved instead.

- A failed save in `AddPeer` breaks the agreement of list and interface exactly when the
  rollback on the interface succeeds (`WgServer.AddKeeps`): the peer stays listed without a
  route, and its name is taken (`WgServer.FailedSaveStrandsPeer`).
- A channel can be closed by a foreign waiter, closed twice, or make a stop return at once so
  that two processes run, not only after the 5s kill but also when a crash is followed by a
  restart that begins between the waiter's unlock and its `close`. `Lifecycle.OverlapExact`
  and `Lifecycle.OverlapSources` give the condition; `CrashThenRestart`, `ChannelClosedTwice`,
  `TwoLiveProcesses` and `KillThenRestart` are runs that go wrong.
- A health probe that straddles the beginning of a stop overwrites the stopped status
  (`Lifecycle.StoppedFragileExactly`, `ProbeStraddlesStop`), and a waiter that comes late
  after the 5s kill overwrites the disconnected one (`DisconnectedFragileExactly`,
  `DisconnectedTurnsError`).
- The country pickers draw consecutive tickets exactly in runs without overlapping
  connections (`RoundRobin.CountryTicketsExact`), and with several tunnels are even exactly
  in those (`CountryFairExactly`, `CountryPickerUnfair`). Round-robin is even until the 64-bit counter wraps, and across the
  wrap exactly for pool sizes that divide 2^64.
- A backend that refuses the greeting method ends the retries with neither connection nor
  error. With fewer than min(5, n) failing backends this is the only way to be refused:
  every start is relayed exactly when no backend does it (`Retry.AlwaysRelayedExactly`,
  `RelayedExactly`, `OneRefusalAmongWorking`).
- A reply cut short by the deadline is padded with zeros (`Retry.Transparent`,
  `LateReplyIsPadded`); past 2^63 connections the start index can be negative
  (`Retry.PanicExactly`, `PanicOnThree`).
- `setupNAT` leaves the rules it appended before a failing step; a session conserves the rule
  multisets exactly when nothing was appended, or set-up completed, the default interface is
  the same at stop and no deletion fails (`Nat.SessionConserves`, `MovedInterfaceLeaks`). One
  case is different: for a zero-length subnet on ens5 the server's masquerade is the
  controller's `-o ens5` rule, and if the controller relies on it, the stop takes it away
  (`AbsorbedMasqueradeLost`).
- Setting a routing mode twice equals setting it once exactly when the rules the mode deletes
  were there at most once (`Routing.ProxiedIdempotent`, `Routing.DirectIdempotent`,
  `SecondCallChanges`). Direct mode keeps the `-o ens5` masquerade of an earlier proxied
  mode.
- Commands that fail unnoticed never touch an unrelated rule (`Routing.UnrelatedKept`). The
  next complete call repairs what they did to the controller's rules exactly when none of
  those it handles is there twice (`Routing.RecoversExactly`), and a second copy comes about
  exactly when the check of a "check or append" fails over a present one
  (`Routing.CallDoublesExactly`, `NoDuplicates`, `CheckFaultLeavesJump`).
- A removed client is gone for good exactly if the file left behind does not list it
  (`WgServer.RemovalFinal`); one whose removal was not saved comes back
  (`UnsavedRemovalReturns`).
- A configured user and password can be presented only if together they are at most 255 bytes
  long (`Socks.PairFitsBuffer`).

Where comments and code disagree the model follows the code: the comment on `proxyPort`
(internal/wgserver/routing.go:24) calls it the backend port to use, but no command of the
proxied mode depends on it, and `Routing.Controller.SetMode` says so.

## Model

| member | source | states |
|---|---|---|
| Decimal.ReverseInPlace | internal/proxy/retry.go:211-214 | the swap loop reverses the digit buffer |
| Decimal.Itoa | internal/proxy/retry.go:202-216 | a non-negative port prints as its decimal numeral, a negative one as nothing |
| Decimal.EnvOrDefaultInt | internal/config/config.go:58-73 | the digit loop computes the 64-bit value of the digits of the setting, or the default for an empty or zero value |
| Decimal.ValueOfNumeral | internal/proxy/retry.go:202-216 | the numeral of n spells n, so printing is injective |
| Decimal.ValueIgnoresNonDigits | internal/config/config.go:64-68 | inserting non-digits anywhere leaves the parsed value unchanged |
| Decimal.WrapStep | internal/config/config.go:66 | 64-bit overflow inside the loop equals one reduction of the unbounded value |
| Decimal.SettingExactly | internal/config/config.go:58-73 | a setting is the default exactly if its 64-bit value is zero or the default, so in particular if it is unset or has no digit, and else its value |
| Decimal.PrintThenParse | internal/config/config.go:58-73 | parsing a printed 64-bit number with noise spliced in gives it back exactly if it is positive or equals the default |
| Firewall.Kernel.Run | internal/wgserver/routing.go:143-154 | the loop takes every command in order and ignores failures, whether a command fails on the tables or for another reason |
| Firewall.WalkConcat | internal/wgserver/routing.go:100-102 | first-match evaluation: a later rule decides only what earlier ones let fall through |
| Firewall.PrefixBlock | internal/wgserver/server.go:501-510 | every prefix, aligned or not, is the block of its size that its network address lies in |
| Routing.Controller.SetMode | internal/wgserver/routing.go:54-79 | tables change by the mode's command list, less the commands that fail, whatever country and port are; mode, country and port end as the source sets them, port 0 becoming 10001 |
| Routing.Controller.SetProxiedFromGold | internal/wgserver/routing.go:158-165 | refuses an empty pool without any effect, else proxies through its first port |
| Routing.ProxiedEffect | internal/wgserver/routing.go:81-126 | the net effect of the proxied command list on an arbitrary table |
| Routing.DirectEffect | internal/wgserver/routing.go:128-141 | the net effect of the direct command list on an arbitrary table |
| Routing.HistoryIndependent | internal/wgserver/routing.go:54-141 | from clean tables, any sequence of mode changes leaves tables that depend only on the last mode and on whether proxied mode was ever entered |
| Routing.CallDoublesExactly | internal/wgserver/routing.go:81-154 | of a rule present at most once a call makes a second copy exactly if one of its checks fails over a present copy |
| Routing.NoDuplicates | internal/wgserver/routing.go:81-154 | whichever commands fail, a rule present at most once stays so throughout a history exactly if no check fails over a present copy |
| Routing.UnrelatedKept | internal/wgserver/routing.go:81-154 | on any tables and whichever commands fail, unrelated rules are neither lost nor reordered |
| Routing.UnrelatedExactly | internal/wgserver/routing.go:81-154 | the unrelated rules of a chain are those at exactly the positions without a controller rule, in order |
| Routing.RecoversExactly | internal/wgserver/routing.go:81-154 | after any history of calls and failures on any tables, one complete call puts the controller's rules in place exactly when none of those it handles was left there twice, and the unrelated rules are as at first |
| Routing.RecoversFromSkips | internal/wgserver/routing.go:81-154 | so it does from clean tables whatever failed, except a check over a present rule |
| Routing.FaultlessCalls | internal/wgserver/routing.go:143-154 | calls none of whose commands fails have the effect of the plain mode sequence |
| Routing.DirectClearsExactly | internal/wgserver/routing.go:128-134 | direct mode clears PREROUTING exactly when each controller rule was there at most once |
| Routing.CheckFaultLeavesJump | internal/wgserver/routing.go:100 | a failing check duplicates the jump, and direct mode then leaves one behind |
| Routing.ProxiedIdempotent | internal/wgserver/routing.go:81-126 | proxied mode is idempotent exactly when the subnet masquerade occurs at most once |
| Routing.DirectIdempotent | internal/wgserver/routing.go:128-141 | direct mode is idempotent exactly when each PREROUTING rule occurs at most once |
| Routing.SecondCallChanges | internal/wgserver/routing.go:81-141 | two tables with a duplicated rule on which a second call changes what the first left |
| Routing.PrivateRanges | internal/wgserver/routing.go:89-96 | the eight prefixes are the stated intervals of 32-bit addresses |
| Routing.ProxyChainVerdict | internal/wgserver/routing.go:85-98 | WG_PROXY redirects a TCP packet to 12345 exactly when its destination is outside all eight ranges |
| Routing.ProxiedVerdict | internal/wgserver/routing.go:82-104 | what PREROUTING decides for every packet after any history ending in proxied mode |
| Routing.PostroutingVerdict | internal/wgserver/routing.go:81-141 | after any history a packet is masqueraded exactly if it leaves by ens5 and proxied mode was ever entered, or comes from 10.100.0.0/24 in direct mode |
| Routing.DirectVerdict | internal/wgserver/routing.go:128-134 | after any history ending in direct mode no packet's fate depends on WG_PROXY |
| Nat.RunSetup | internal/wgserver/server.go:410-437 | the rules appended up to the step that fails, and success exactly when none fails |
| Nat.RunTeardown | internal/wgserver/server.go:439-450 | deletes the first copy of each of the three rules, less the deletions that fail |
| Nat.ForwardVerdict | internal/wgserver/server.go:423-434 | while the server is up FORWARD accepts exactly what comes from wg-server, or goes to it on an established connection |
| Nat.MasqueradeVerdict | internal/wgserver/server.go:416-421 | after set-up POSTROUTING masquerades exactly what comes from the subnet and leaves by the default interface |
| Nat.RoutingCarriesExtras | internal/wgserver/routing.go:81-141 | mode changes commute with foreign POSTROUTING and FORWARD rules, up to order |
| Nat.RoutingAbsorbs | internal/wgserver/routing.go:104 | a lone extra `-o ens5` masquerade is taken for the controller's own from the first proxied mode on |
| Nat.SessionConserves | internal/wgserver/server.go:410-450 | set-up, any mode changes and teardown, failing deletions included, leave the rules of the mode changes alone exactly under the stated condition on the inputs |
| Nat.MovedInterfaceLeaks | internal/wgserver/server.go:439-445 | a default interface that changes before the stop leaves its masquerade behind |
| Nat.AbsorbedMasqueradeLost | internal/wgserver/server.go:416-445 | a zero-length subnet on ens5 whose stop deletes the controller's masquerade |
| Address.AllocateIP | internal/wgserver/server.go:483-511 | returns the lowest host number in 2..253 that is inside the subnet and unused, and nothing exactly when there is none or the subnet does not parse |
| Address.PrintInjective | internal/wgserver/server.go:491-505 | dotted-decimal strings are equal exactly when the four bytes are |
| Address.UsedIsBytewise | internal/wgserver/server.go:490-495 | the string-set test is comparison of addresses |
| Address.BeforeSlashExactly | internal/wgserver/server.go:490-495 | the part before the slash is the string that is all of it or is followed by a slash |
| Address.NarrowSubnetContains | internal/wgserver/server.go:501-510 | with 24 or more prefix bits exactly the hosts in the block of the base address are in the subnet |
| Address.AllocationForPeers | internal/wgserver/server.go:483-511 | for stored peers: lowest free in-subnet host, never the server's or a stored address, none exactly when all are stored |
| Address.AllocationSucceeds | internal/wgserver/server.go:501-510 | with at most 24 prefix bits and fewer than 252 stored strings of any form an address is found |
| Peers.PeerStore.Load | internal/wgserver/peers.go:35-55 | a missing file is no error; any failure keeps the peers in memory |
| Peers.PeerStore.Add | internal/wgserver/peers.go:67-74 | the peer is appended in memory whether or not the save succeeds |
| Peers.PeerStore.Remove | internal/wgserver/peers.go:77-88 | removes the first peer of that name and saves, or reports it missing |
| Peers.PeerStore.Get | internal/wgserver/peers.go:91-101 | the first peer of that name, if any |
| WgServer.Server.Start | internal/wgserver/server.go:46-92 | the new state and rule tables for every pattern of failing commands |
| WgServer.Server.Stop | internal/wgserver/server.go:95-107 | removes interface and NAT rules if running, less the deletions that fail, and else does nothing |
| WgServer.Server.AddPeer | internal/wgserver/server.go:124-189 | the new state and the reply for every pattern of failing commands |
| WgServer.Server.RemovePeer | internal/wgserver/server.go:192-217 | the new state and the error for every pattern of failing commands |
| WgServer.StartKeeps | internal/wgserver/server.go:64-89 | a started server satisfies the invariant exactly when no stored peer failed to be re-added |
| WgServer.StartExactly | internal/wgserver/server.go:46-92 | for every pattern of failures: whether the server is up, which peers it knows, and what stays on the interface |
| WgServer.AddKeeps | internal/wgserver/server.go:132-166 | AddPeer keeps the invariant exactly unless the save failed and the rollback succeeded |
| WgServer.AddExactly | internal/wgserver/server.go:124-142 | which of the first refusals is given, by state, name and key generation alone |
| WgServer.AddAllocates | internal/wgserver/server.go:143-189 | past those, a config is returned exactly if a host in 2..253 is free, the interface accepts and the save succeeds; it carries the generated private key and the lowest free address, and the peer is listed, saved and routed under the generated public key |
| WgServer.FailedSaveStrandsPeer | internal/wgserver/server.go:124-166 | a run from scratch in which the refused client stays listed without a route, and the next AddPeer of that name is refused with nothing changed (a RemovePeer would free it) |
| WgServer.RemoveKeeps | internal/wgserver/server.go:192-217 | RemovePeer removes exactly the named peer and keeps the invariant even when its commands fail |
| WgServer.RemoveExactly | internal/wgserver/server.go:192-217 | for every pattern of failures: the first peer of the name goes, the file and the interface end as their commands leave them, and otherwise nothing changes |
| WgServer.RunKeeps | internal/wgserver/server.go:46-217 | in every run of harmless steps names, keys and addresses stay distinct and the interface routes each address to its peer |
| WgServer.DownRoutesNothing | internal/wgserver/server.go:64-107 | while the server is down nothing is routed, as long as the interface can be deleted; a stop that cannot delete it leaves every entry |
| WgServer.StopTwice | internal/wgserver/server.go:95-107 | a second stop does nothing, not even to what the first left on the interface |
| WgServer.ClientsMasqueraded | internal/wgserver/server.go:414-421 | the addresses masqueraded are exactly those of the configured subnet |
| WgServer.ConfigStaysServed | internal/wgserver/server.go:124-217 | a client given a config stays listed, and routed while the server runs, through every harmless run of one process without its removal, failed saves, stops and starts included |
| WgServer.FreshProcessServes | internal/wgserver/server.go:64-79 | after a restart of the process, which has only the file, that client is served exactly if the file can be read |
| WgServer.RemovalFinal | internal/wgserver/server.go:192-217 | a removed name never comes back without a new AddPeer exactly if the file left behind does not list it |
| WgServer.UnsavedRemovalReturns | internal/wgserver/server.go:192-217 | a removal that was not saved is undone, route included, by a stop and a start |
| WgServer.RestartRecovers | internal/wgserver/server.go:64-107 | stop and start after a successful save restore the peers and drop every stale interface entry |
| WgServer.RunningPeersSeparated | internal/wgserver/server.go:143-159 | two clients have different in-subnet addresses, not the server's, routed to different keys |
| Tunnels.CountryShape | internal/tunnels/manager.go:399-405 | a country is the upper-cased two-byte first part of the name, and there is none without such a part |
| Tunnels.UpperExactly | internal/tunnels/manager.go:402 | the lower-case letters become the upper-case ones and nothing else changes |
| Tunnels.Manager.Append | internal/tunnels/manager.go:125 | appending in place or into a larger array extends the list by one |
| Tunnels.Manager.LoadConfigs | internal/tunnels/manager.go:103-132 | registers the directory's configs |
| Tunnels.LoadedExactly | internal/tunnels/manager.go:112-128 | exactly the .conf files, in order, on consecutive ports |
| Tunnels.ConfigNames | internal/tunnels/manager.go:112-118 | a config is a file named like its tunnel followed by .conf |
| Tunnels.ConfigsExactly | internal/tunnels/manager.go:112-118 | the loader keeps exactly the configs of a directory, in order |
| Tunnels.DeletedExactly | internal/tunnels/manager.go:353-361 | the first tunnel of the name is taken out and nothing else, or nothing if there is none |
| Tunnels.Manager.ImportConfig | internal/tunnels/manager.go:368-385 | registers one tunnel on the next port, or nothing if the file cannot be written |
| Tunnels.Manager.CutAt | internal/tunnels/manager.go:357 | the in-place shift removes exactly element i |
| Tunnels.Manager.Delete | internal/tunnels/manager.go:341-365 | removes the first tunnel of that name unless its config file cannot be removed |
| Tunnels.Manager.GetTunnels | internal/tunnels/manager.go:177-183 | a fresh array with the list's contents |
| Tunnels.Manager.HealthyBackends | internal/tunnels/manager.go:186-196 | the ports at exactly the positions with a Running tunnel, in list order |
| Tunnels.RunningPortsExactly | internal/tunnels/manager.go:186-196 | an increasing sequence of positions hits exactly the Running tunnels and gives the healthy ports in order |
| Tunnels.PortsNeverReused | internal/tunnels/manager.go:112-128 | over any operations ports increase along the list within the issued range and are never given out again |
| Tunnels.DeletedForGood | internal/tunnels/manager.go:353-361 | a deleted entry is the only one lost and never comes back |
| Tunnels.Replay | internal/tunnels/manager.go:177-183 | over every operation sequence all earlier snapshots keep their contents |
| Country.CountryProxies.GroupByCountry | internal/proxy/server.go:88-97 | one group per non-empty country, in list order |
| Country.CountryProxies.StartCountryProxies | internal/proxy/server.go:87-116 | for any iteration order and failing ports: the mapping added and the listeners opened, each at its country's port and serving that country's tunnels |
| Country.ListenersServe | internal/proxy/server.go:99-114 | every listener is at the port mapped to a country, serves exactly that country's tunnels in list order, and did not fail; every country whose port did not fail has exactly one |
| Country.CountriesExactly | internal/proxy/server.go:89-97 | the countries are the non-empty ones of the listed tunnels |
| Country.GroupsPartition | internal/proxy/server.go:88-97 | each tunnel with a country is in its own group, as often as listed, and in no other |
| Country.PortsBijective | internal/proxy/server.go:99-114 | the k countries map one to one onto the k ports from the base |
| Lifecycle.SafeUnlessOverlapped | internal/tunnels/manager.go:198-286 | one live process, command with pending waiter, channels closed once and by their own waiter, one temporary config, in every run without overlap |
| Lifecycle.OverlapExact | internal/tunnels/manager.go:214-257 | with all waiters done, a foreign close happened exactly if a channel was made over an unfinished waiter |
| Lifecycle.OverlapSources | internal/tunnels/manager.go:242-277 | that takes a timed-out stop or a stop inside a crash window; otherwise every run is safe |
| Lifecycle.StatusExactly | internal/tunnels/manager.go:198-286 | in every run the status is the one that the last status-setting step sets: a failed start or an unstopped tunnel's waiter Error, a passing check or a started process Running, a failing check Unhealthy, and so on, in both directions |
| Lifecycle.CheckReports | internal/health/checker.go:122-151 | a check reports an active tunnel Running exactly if its probe passes and else Unhealthy, and does nothing to any other |
| Lifecycle.OperationsEnd | internal/tunnels/manager.go:198-338 | every own step of a start, stop, restart or disconnect brings it closer to its end, and nothing else delays it |
| Lifecycle.OperationsGoOn | internal/tunnels/manager.go:198-338 | an operation in progress can always take a step, and an idle tunnel can be stopped |
| Lifecycle.CrashThenRestart | internal/tunnels/manager.go:243-256 | a run without timeout in which an old waiter closes the new channel |
| Lifecycle.ChannelClosedTwice | internal/tunnels/manager.go:256 | its continuation that closes one channel twice |
| Lifecycle.TwoLiveProcesses | internal/tunnels/manager.go:268-277 | its continuation with two live processes |
| Lifecycle.KillThenRestart | internal/tunnels/manager.go:270-275 | after the kill the old waiter clears the new command and closes the new channel |
| Lifecycle.StoppedStaysStopped | internal/health/checker.go:122-152 | a stop that began outside a probe keeps the tunnel Stopped until the next start or disconnect, so it never turns Error; a disconnect keeps it Disconnected unless it left a waiter, which needs a timeout or a crash window |
| Lifecycle.StoppedFragileExactly | internal/health/checker.go:123-151 | a stopped status survives every next step exactly when no probe is under way |
| Lifecycle.DisconnectedFragileExactly | internal/tunnels/manager.go:242-257 | a disconnected status survives every next step exactly when no probe is under way and no exited process has a waiter due |
| Lifecycle.DisconnectedTurnsError | internal/tunnels/manager.go:242-275 | a run in which the late waiter of a killed process turns a disconnected tunnel into a failed one |
| Lifecycle.ProbeStraddlesStop | internal/health/checker.go:123-151 | a run in which a stopped tunnel is reported Running |
| RoundRobin.Balancer.PickBackend | internal/proxy/server.go:286-304 | of exactly the Running tunnels in list order, the one at counter modulo their number, and one ticket drawn unless there is none |
| RoundRobin.NoLostTickets | internal/proxy/server.go:297-300 | under any interleaving the k-th pick holds the k-th ticket |
| RoundRobin.PickCompletes | internal/proxy/server.go:286-304 | after any interleaving a call that finds healthy tunnels is logged with the next ticket, and one that finds none draws no ticket |
| RoundRobin.PicksAreFair | internal/proxy/server.go:286-304 | any stretch of picks over n healthy tunnels gives each the floor or ceiling of its share, until the counter wraps |
| RoundRobin.FairAcrossWrap | internal/proxy/server.go:298-299 | all windows across the wrap are even exactly when n divides 2^64 |
| RoundRobin.CountryTicketsExact | internal/proxy/server.go:128-154 | country tickets are consecutive exactly when no two connections overlap |
| RoundRobin.CountryPicksAreFair | internal/proxy/server.go:128-154 | without overlap any stretch of country picks gives each of n tunnels the floor or ceiling of its share, until the counter wraps |
| RoundRobin.CountryFairExactly | internal/proxy/server.go:128-154 | with two or more tunnels all stretches are even exactly when no two connections overlap |
| RoundRobin.CountryPickerUnfair | internal/proxy/server.go:128-154 | two overlapping connections get the same tunnel and lose an increment |
| Retry.TryBackend | internal/proxy/retry.go:145-200 | the outcome, the reply bytes, the bytes consumed and the bytes sent, for every backend stream and deadline |
| Retry.OutcomeExactly | internal/proxy/retry.go:148-176 | which bytes, if they come in time, make an attempt connect, end the retries, or fail |
| Retry.ReplyExactly | internal/proxy/retry.go:166-199 | the length of the relayed reply, each of its bytes and the bytes consumed, for every address type and deadline |
| Retry.FailureReplyFails | internal/proxy/retry.go:173-176 | any reply header with a failure code fails the attempt |
| Retry.Transparent | internal/proxy/retry.go:122-139 | the client sees the stream minus two bytes exactly when the announced reply arrived whole |
| Retry.LateReplyIsPadded | internal/proxy/retry.go:174-194 | a reply of which only the header came in time, passed on with six zeros before the late bytes |
| Retry.EncodedReplyRelayed | internal/proxy/retry.go:166-199 | any encoded success reply (section 6 of RFC 1928) is consumed exactly and relayed with the data after it |
| Retry.RetryProxy.HandleConn | internal/proxy/retry.go:62-139 | greeting and request checks, gold pool before healthy list, one index step, the retry from the resulting start, and every byte the client is sent |
| Retry.TryInTurn | internal/proxy/retry.go:100-118 | tries positions in cyclic order up to min(5, n), stopping at the first attempt without error |
| Retry.EnoughWorkingBackends | internal/proxy/retry.go:97-118 | distinct positions; fewer than min(5, n) failures always give a connection; for n at most 5 refusal exactly when all fail |
| Retry.RelayedExactly | internal/proxy/retry.go:100-120 | from any start the client is relayed, through that backend, exactly when the first of the min(5, n) positions that does not fail connects |
| Retry.RelayedSuccess | internal/proxy/retry.go:122-123 | a relayed client is always told success, in the backend's own header |
| Retry.FailureReplyFailsOver | internal/proxy/retry.go:100-118 | after a failure reply the next backend is tried, and relayed if it connects |
| Retry.AlwaysRelayedExactly | internal/proxy/retry.go:97-120 | with fewer than min(5, n) failing backends every start is relayed exactly when no backend refuses the greeting method |
| Retry.MethodRefusalEndsRetries | internal/proxy/retry.go:158-161 | a refused greeting method, wherever it comes up first, ends the retries with a refusal |
| Retry.OneRefusalAmongWorking | internal/proxy/retry.go:158-161 | a pool in which no backend fails and all but one work, whose client is refused |
| Retry.PanicExactly | internal/proxy/retry.go:98-106 | the indices for which the start position is negative |
| Retry.PanicOnThree | internal/proxy/retry.go:98-106 | index 2^63 with three backends |
| Socks.ParseCarried | internal/proxy/server.go:306-323 | a buffer carrying an IPv4 or domain request prints as that host and big-endian port, whatever follows |
| Socks.ParseComplete | internal/proxy/server.go:306-323 | which buffers carry such a request; all others print as unknown |
| Socks.ConnectRequests | internal/proxy/server.go:205-219 | an encoded request of either address type is accepted exactly with version 5 and command CONNECT, and understood as its host and port |
| Socks.Greetings | internal/proxy/server.go:163-167 | a greeting is accepted exactly with version 5 and at least one more byte |
| Socks.CheckAuth | internal/proxy/server.go:176-197 | accepts exactly the messages that begin with the encoding of the configured pair (section 2 of RFC 1929), within the first n bytes |
| Socks.PairFitsBuffer | internal/proxy/server.go:163-175 | a configured pair can be presented exactly when its encoding fits the 258-byte buffer |
| Socks.HandleConnection | internal/proxy/server.go:159-231 | a backend is chosen exactly after acceptable greeting, authentication if configured, and request; every byte written before that |
| GoldPool.AtMostFiftyProbes | internal/health/checker.go:256-278 | in every state any sweep reaches at most 50 probes are in flight, and a waiting port gets its goroutine exactly if fewer than 50 hold a slot |
| GoldPool.StepKeeps | internal/health/checker.go:258-285 | slots, recorded ports and jobs agree after every step of every interleaving |
| GoldPool.PublishesThePassing | internal/health/checker.go:249-288 | in every interleaving each tunnel is read once, each read as Running is probed, and the published list is a permutation of exactly the ports whose probe passed |
| GoldPool.ProbesDecide | internal/health/checker.go:258-280 | a job carries a verdict exactly if its own probe returned it |
| GoldPool.ProbedOnce | internal/health/checker.go:258-280 | each job of a published sweep was probed with exactly one verdict |
| GoldPool.NeverStuck | internal/health/checker.go:268-281 | neither semaphore nor wait group blocks an unpublished sweep for good |
| GoldPool.EverySweepPublishes | internal/health/checker.go:249-288 | every run of a sweep is bounded and, when it cannot go on, has published |
| GoldPool.PoolIsNeverMixed | internal/health/checker.go:283-285 | with overlapping sweeps the pool is always the whole result of the sweep that published last |
| GoldPool.EventsTakeEffect | internal/health/checker.go:241-288 | with overlapping sweeps a publication replaces the pool, and no other step touches it or another sweep |
| GoldPool.SweepsAreRuns | internal/health/checker.go:241-288 | each overlapping sweep is a run of its own, so that all results about one sweep hold of it |

## Left out

- HTTP handlers, dashboard, event stream, JSON and multipart encoding, and URL import: plumbing over these cores. The peers file is modelled by the list it decodes to, and a torn write as undecodable.
- Key generation and `wg pubkey`: a source of keys; `WgServer.RunKeeps` assumes each new key differs from the stored ones. The public address and endpoint in a client config are not modelled.
- IPv6 subnets in the allocator: the code always writes `/32`.
- The redsocks configuration text and service restarts: they do not touch the rule tables.
- `Server.handleConnection` after the choice of a backend: its single read of the backend's reply has no exact framing to prove.
- The traffic counters, latency averages and check counts of `checkAll`, exit-address lookup, and the schedule of deep checks.
- Lifecycle: operations on one tunnel are serialised, including the background start of a restart; overlapping operations are not modelled. A stop's signal is not a step of its own, since a process may exit at any moment.
- Unicode upper-casing of country parts with a byte outside ASCII: an abstract function of the part.
- Ports beyond 65535 and overflow of the port counter are not modelled.
- Retry: the copy loops after the reply are represented by the bytes the connection still delivers.
