# Verified model of the Bosch camera client core

This project models the parts of `bosch_shc_camera_client` that hold state, interleave,
scan text or decode records, and proves what they promise.

- **TLS proxy life cycle** (`Breaker`, `ProxyLifecycle`, `ProxyOwnership`,
  `ProxyCallbacks`, `ProxyRenewals`, `ProxyTable`). Starting, stopping, the final sweep, the connect
  handlers and the burst breaker form one step system. A step is the code between two
  awaits, and any steps may interleave. `ProxyTable.Proxies` is the same system with its
  dictionaries updated in place; each of its methods is proved to be one step.
- **RTSP relay** (`SetupRewrite`, `Relay`, `RelayLaws`) and **encoder warm-up** (`PreWarm`).
  The substitution is proved against the pattern it stands for, for any literals that meet
  stated conditions, and then for the literals of the source. `Relay.Pipe` and
  `PreWarm.PreWarmRtsp` are the two loops.
- **RCP** (`TagSearch`, `RcpReply`, `RcpBodies`, `RcpSessions`, `RcpHandshakes`,
  `RcpEvictions`, `RcpSessionTable`, `RcpSessionRaces`, `RcpClock`, `RcpCodecs`,
  `RcpDecodeLaws`, `RcpFetch`).
  The session cache is a lock protocol as a step system, again with a class beside it that
  updates the two dictionaries. The replies, the payload decoders and the three-strikes
  counters are modelled on the bytes of a reply.
- **HTTP Digest** (`DigestSyntax`, `Digest`, `DigestLaws`). The challenge scanner, the header
  builder, a server that recomputes the response by sections 3.4.1 to 3.4.3 of RFC 7616
  (section 3.2.2.1 of RFC 2617 without qop), and the exchange of up to three requests.
- **Pre-roll ring** (`Segments`, `Preroll`), **stream address** (`StreamUrl`, `StreamUrlLaws`,
  `HostNames`, `AddressReader`) and **file name sanitizer** (`Sanitizer`).

The modules named `...Laws`, `RcpBodies`, `RcpHandshakes` and `RcpEvictions` state what the others compute
with every literal, limit and status of the protocol written out in the statement.
`Wrappers`, `Text` and `Bytes` hold shared helpers.

## What the proofs found

Some properties one would expect of the code do not hold on all inputs. For each there
is a lemma with a concrete run or input that breaks it, and one with the exact condition
under which it does hold.

- Open servers can be orphaned, by two overlapping starts of one camera or by a start
  while `stop_all_proxies` waits (`OverlappingStartsOrphanAServer`,
  `StartDuringStopAllOrphansAServer`). All servers are owned at every scheduling point
  exactly when each install finds its camera uncached and each final clear finds the
  cache empty (`OwnedThroughoutIffClean`).
- The breaker window is fixed at the first failure of a run: failures at 0, 31, 32, 33,
  34 and 35 s never trip (`SlowStartNeverTrips`). A run trips exactly when its fifth
  failure comes within 30 s of its first (`RunTripsIffFifthInWindow`).
- A caller that passes no `session_locks` races with every other caller, locking or not,
  and the second insert overwrites the first (`UnsharedCallersRace`). No insert overwrites
  an entry in any run exactly when every caller passes them (`NoOverwriteIffAllLock`).
- Eviction is by hash, so a late 401 can evict a newer session than the one it was about
  (`LateFailureEvictsANewerSession`). It evicts the one its read used exactly when no
  handshake of that hash has stored a session since
  (`EvictsItsOwnSessionIffNoneStoredSince`).
- A trip samples whether it is current before it waits, so `on_proxy_died` can be called
  although a newer proxy is cached (`CallbackBesideANewerProxy`): exactly when an install
  of that camera lies between the trip and the call and is still cached
  (`CallsBackBesideNewerIffInstalledSince`).
- A failing read for the hash `a/b` evicts `b` (`SlashEvictsAnother`). A read evicts the
  hash it was opened for exactly when that hash holds no slash
  (`DropsOwnHashIffNoSlash`).
- The body `<err>0x0c0d</err></err>` does not drop the dead session
  (`RepeatedCloseKeepsTheSession`). The greedy group reaches the last closing tag of its
  stretch without white space, so an error or a session id is read exactly when its
  closing tag is not repeated there (`ErrorDropsIffClosesOnce`, `SessionIdIsReadIff`).
- `rcp_local_read` raises a ValueError on the body `<str>abc</str>`
  (`ThreeHexDigitsRaise`). It does so exactly on a captured payload of odd hex length; on
  every other reply it agrees with `rcp_read` (`ReadsAgreeUnlessOddHex`).
- A rectangle from x1 = 2620 is rejected as XML (`RealCoordsCanBeRejected`). A payload of
  at least 16 bytes is accepted exactly when its first byte that is not white space
  exists and is not `<` (`CoordsAcceptedIffNotXmlLike`).
- k passes that read a command at the same time can push its strike count to k + 2
  (`ReadsFail`). The count stops at 3 in all runs exactly when no two passes overlap
  (`CountStopsAtThreeIffNoOverlap`).
- The Digest header for the user `a"b` never reads back (`QuotedUserIsMisread`). A header
  reads back as what was emitted exactly when neither the user nor the uri contains a
  quote (`HeaderReadsBackIffNoQuote`).
- Asking for low quality does not commute with printing the address on the host `inst=2`
  (`HostNamingAnInstance`). It does exactly when the host names no instance other than 4
  (`LowQualityCommutesWithPrinting`).
- `stream_url` prints its proxy host as it stands. The text always determines every part
  it was printed from (`AddressIsInjective`), but a reader that cuts an address by RFC
  3986 loses the hosts `a/b`, `[x`, `u@h` and `a:b` (`DelimitersInTheHostAreLost`). It
  gets all parts back exactly when the host is one the RFC allows there and the port is
  not negative (`AddressReadsBackIffHost`), as the default host, `::1` and every IPv6
  address of eight groups are (`DefaultHostReadsBack`, `Ipv6HostsReadBack`).

## Model

| member | source | states |
|---|---|---|
| Breaker.CountersAreTheRun | src/bosch_shc_camera_client/tls_proxy.py:257-261 | After any history of connect outcomes, `fail_count` is the number of failures since the last success and `first_fail_at` is the time of the first of them, or minus infinity. |
| Breaker.TripsExactlyOnShortBursts | src/bosch_shc_camera_client/tls_proxy.py:258-273 | For every history, a failure meets the trip test if and only if the run of failures it ends has at least 5 entries and its last is at most 30.0 s after its first. |
| Breaker.RunTripsIffFifthInWindow | src/bosch_shc_camera_client/tls_proxy.py:86-87 | With a monotone clock, the present run of failures has tripped at some point if and only if it has a fifth failure at most 30.0 s after its first: the window does not slide. |
| Breaker.SlowStartNeverTrips | src/bosch_shc_camera_client/tls_proxy.py:258-273 | Failures at 0, 31, 32, 33, 34 and 35 s, five of them within 4 s, trip at no point. |
| Breaker.FifthFailureTripsWithinThirtySeconds | src/bosch_shc_camera_client/tls_proxy.py:59-60 | Four failures at 0.0 followed by one at t trip if and only if t is at most 30.0. |
| Breaker.FourFailuresNeverTrip | src/bosch_shc_camera_client/tls_proxy.py:265-273 | At most four failures since a success never trip, whatever came before. |
| ProxyLifecycle.StepSound | src/bosch_shc_camera_client/tls_proxy.py:79-134 | Every step keeps the invariant: both caches have the same keys, a cached server is an installed open generation of that camera cached with its own port, the callback count follows the removal cause, and the closure variables follow the connect history. |
| ProxyLifecycle.RunSound | src/bosch_shc_camera_client/tls_proxy.py:331-334 | The invariant holds at every scheduling point of every run from empty caches, whatever the callers do. |
| ProxyOwnership.StepKeepsOwners | src/bosch_shc_camera_client/tls_proxy.py:331-334 | From a point without orphaned servers, a step creates one if and only if it is an install over a cached camera or a final clear of a non-empty cache. |
| ProxyOwnership.OwnedThroughoutIffClean | src/bosch_shc_camera_client/tls_proxy.py:413-418 | Over every run, the open servers of each camera are exactly the cached one plus those that running starts hold, at all scheduling points, if and only if every install and final clear is clean. |
| ProxyOwnership.NonOverlappingStartsOwnEverything | src/bosch_shc_camera_client/tls_proxy.py:79-81 | When starts overlap neither another start of their camera nor a stop_all, the open servers of a camera are the cached one plus at most one not yet installed, never both, and the port cache has the same keys with that server's port. |
| ProxyOwnership.StopAllLeavesNothingOpen | src/bosch_shc_camera_client/tls_proxy.py:412-418 | With such callers, whenever a stop_all reaches its final clear, no server of any camera is open, before and after it, and both caches end empty. |
| ProxyCallbacks.CallbackAtMostOnceAndOnlyAfterOwnTrip | src/bosch_shc_camera_client/tls_proxy.py:90-107 | Over every run a generation calls back at most once, only if a failure of its own that crossed the threshold took it out of the cache, and always once that trip has finished waiting and a callback was given. |
| ProxyCallbacks.SupersededStaysSilent | src/bosch_shc_camera_client/tls_proxy.py:154-164 | A generation removed by a stop, a newer start or the clear never calls back afterwards, and its late failures, trips included, change neither cache nor any other generation. |
| ProxyCallbacks.BreakerFollowsHistory | src/bosch_shc_camera_client/tls_proxy.py:246-296 | At every point of every run, the counters of each generation are those of its present run of failures, and it has fired if and only if at some failure in its history the run had at least 5 entries spanning at most 30.0 s. |
| ProxyCallbacks.TripClosesIffInstalled | src/bosch_shc_camera_client/tls_proxy.py:90-136 | In every run, a failure that trips an armed generation closes its server and will report if and only if that server was installed. |
| ProxyCallbacks.FiredMeansClosed | src/bosch_shc_camera_client/tls_proxy.py:246-291 | In every run in which no connect fails before its server is installed, each breaker that has fired has closed its server, and it stays closed. |
| ProxyRenewals.CallsBackBesideNewerIffInstalledSince | src/bosch_shc_camera_client/tls_proxy.py:104-164 | In every run, a generation that its own trip took out of the cache calls back while a proxy of its camera is cached if and only if an install of that camera lies between the trip and the call and its server is still the cached one, which is never the old one. |
| ProxyRenewals.CachedSinceInstall | src/bosch_shc_camera_client/tls_proxy.py:331-334 | In every run, what is cached for a camera at one point and was not at an earlier one was installed in between. |
| ProxyRenewals.CallbackBesideANewerProxy | src/bosch_shc_camera_client/tls_proxy.py:104-164 | For every camera and ports: a run in which a whole start fits into the wait of a trip, and the old generation then calls back although the new one is cached. |
| ProxyCallbacks.OverlappingStartsOrphanAServer | src/bosch_shc_camera_client/tls_proxy.py:80-81 | For every camera and ports: a run in which two starts of that camera are under way at one point, and at whose end the first of their servers is installed, open and named by no cache. |
| ProxyCallbacks.StartDuringStopAllOrphansAServer | src/bosch_shc_camera_client/tls_proxy.py:413-418 | For every two cameras: a run with a whole start of the second one between the first and the last step of a stop_all, at whose end its server is installed, open and named by no cache. |
| ProxyTable.Proxies.StopTlsProxy | src/bosch_shc_camera_client/tls_proxy.py:387-392 | The in-place removal from both dictionaries and the close are exactly the Stop step, and keep the invariant. |
| ProxyTable.Proxies.BeginStartTlsProxy | src/bosch_shc_camera_client/tls_proxy.py:79-81 | The first segment of a start, with its conditional stop, is exactly the BeginStart step. |
| ProxyTable.Proxies.InstallServer | src/bosch_shc_camera_client/tls_proxy.py:331-342 | The two cache writes are exactly the Install step, and the returned port is that of the new server. |
| ProxyTable.Proxies.FireOnProxyDied | src/bosch_shc_camera_client/tls_proxy.py:90-136 | The part of the trip before `wait_closed` takes the caches' entries only if they still name this generation, and closes its server. |
| ProxyTable.Proxies.ConnectFailure | src/bosch_shc_camera_client/tls_proxy.py:257-291 | Counting, the trip test and the trip up to its first await are exactly the ConnectFailed step. |
| ProxyTable.Proxies.ConnectSuccess | src/bosch_shc_camera_client/tls_proxy.py:293-296 | A successful connect is exactly the step that clears the burst. |
| ProxyTable.Proxies.FinishProxyDied | src/bosch_shc_camera_client/tls_proxy.py:154-170 | The part of the trip after `wait_closed` is exactly the FinishTrip step; it calls back if and only if the count of calls goes up. |
| ProxyTable.Proxies.StopAllNext | src/bosch_shc_camera_client/tls_proxy.py:413-414 | One turn of the stop_all loop is exactly the SweepNext step. |
| ProxyTable.Proxies.StopAllClear | src/bosch_shc_camera_client/tls_proxy.py:417-418 | The two clears are exactly the SweepClear step. |
| SetupRewrite.MatchIsLongest | src/bosch_shc_camera_client/tls_proxy.py:226 | The greedy matcher is the pattern: it fails if and only if no prefix of the text matches, and otherwise finds the longest matching prefix. |
| SetupRewrite.RewriteExchangesMatchesOnly | src/bosch_shc_camera_client/tls_proxy.py:225-229 | The substitution cuts the text into kept characters and whole matches, exchanges the matches and keeps all the rest in order. |
| SetupRewrite.RewriteLeavesNoMatch | src/bosch_shc_camera_client/tls_proxy.py:225-229 | For any pattern literals and replacement that meet the stated conditions, no position of the result starts a match, across the joints included. |
| Relay.ReplacementIsNeutral | src/bosch_shc_camera_client/tls_proxy.py:227 | For every channel number the replacement text neither holds the start of a UDP header nor completes one, whatever text follows it. |
| Relay.ReplacementNamesItsChannels | src/bosch_shc_camera_client/tls_proxy.py:223-230 | A reader of the transport header finds exactly the channels lo and lo + 1 in the replacement for lo. |
| Relay.RewriteIsFinal | src/bosch_shc_camera_client/tls_proxy.py:220-231 | For every text and channel pair, no part of the result is a header of the form `Transport:`, white space, `RTP/AVP`, parameters, `;unicast;client_port=`, ports, and a second substitution with any pair changes nothing. |
| Relay.RewriteKeepsTheRest | src/bosch_shc_camera_client/tls_proxy.py:225-229 | The result is the text with exactly the headers of a leftmost cut exchanged for the spelled-out TCP header of the channel pair, everything else in order. |
| Relay.AsciiSetupsAreRewritten | src/bosch_shc_camera_client/tls_proxy.py:220-231 | With a codec that leaves ASCII alone, the bytes written for an ASCII SETUP chunk hold no such UDP header at any place, and are the chunk with exactly its headers exchanged for `Transport: RTP/AVP/TCP;unicast;interleaved=2k-2k+1`. |
| Relay.UdpHeadersAreMatched | src/bosch_shc_camera_client/tls_proxy.py:226 | The pattern of the substitution matches exactly the texts `Transport:`, white space, `RTP/AVP`, parameters without `;` or a line end, `;unicast;client_port=` and a non-empty rest of the line. |
| RelayLaws.OrdinarySetupIsRewritten | src/bosch_shc_camera_client/tls_proxy.py:220-231 | For every k and every ASCII chunk of whole lines that hold `SETUP ` and no UDP header, then one such header, then the line end and a rest without one, what is written is the same text with `Transport: RTP/AVP/TCP;unicast;interleaved=` and the channels 2k and 2k + 1 in place of the header. |
| RelayLaws.OtherChunksPass | src/bosch_shc_camera_client/tls_proxy.py:220 | A chunk in which `SETUP ` stands nowhere is written as it came. |
| Relay.RewriteChunk | src/bosch_shc_camera_client/tls_proxy.py:220-231 | A chunk behind k SETUP chunks is written with channel 2k, and the counter moves on by two exactly for a SETUP chunk. |
| Relay.Pipe | src/bosch_shc_camera_client/tls_proxy.py:183-241 | For every script of reads, the loop writes the concatenation of the transformed chunks read before the first end, error or timeout, the k-th SETUP chunk with channels 2k and 2k + 1, and closes its writer. |
| Relay.RelayConserves | src/bosch_shc_camera_client/tls_proxy.py:232 | Without rewriting, and for chunks without SETUP, what is written is the concatenation of what was read, however the stream is cut. |
| Relay.ChannelPairsAreDisjoint | src/bosch_shc_camera_client/tls_proxy.py:223-230 | Different SETUP chunks get disjoint channel pairs, and a pair fits the one-byte channel of section 10.12 of RFC 2326 if and only if at most 127 SETUP chunks came before. |
| PreWarm.PreWarmRtsp | src/bosch_shc_camera_client/tls_proxy.py:574-672 | For every sequence of outcomes: attempts stop at the first that receives both answers or at the limit, the log of the writers is balanced over them, never two are open, none is left open, at most one is opened for each attempt, and the result is True if and only if the first attempt to receive both answers got `200 OK`. |
| PreWarm.TryOnce | src/bosch_shc_camera_client/tls_proxy.py:575-671 | One attempt closes the writer it opened at whichever of the three places it leaves by, and none when the connect failed, and returns, or goes on, as its outcome says. |
| PreWarm.WritersNeverOverlap | src/bosch_shc_camera_client/tls_proxy.py:607-671 | At no point of a balanced log are two writers open, and none is open at its end. |
| TagSearch.SearchSkips | src/bosch_shc_camera_client/rcp.py:245-249 | A tag search returns the group of the first position at which the tag fits. |
| TagSearch.TagAtIsLongest | src/bosch_shc_camera_client/rcp.py:236-249 | The matcher is the pattern: it fails if and only if the pattern fits with no group, and otherwise captures the longest group it fits with. |
| TagSearch.SearchIsLeftmost | src/bosch_shc_camera_client/rcp.py:236-249 | A captured group comes from a position before which the pattern fits nowhere. |
| TagSearch.SearchFailsIffNowhere | src/bosch_shc_camera_client/rcp.py:236-249 | Nothing is captured if and only if the pattern fits at no position. |
| TagSearch.CapturesIffClosesOnce | src/bosch_shc_camera_client/rcp.py:153 | A group whose class can run on into the closing tag is captured whole if and only if no second closing tag starts in the same run. |
| RcpReply.HexInStrRoundTrip | src/bosch_shc_camera_client/rcp.py:501-504 | Every non-empty byte string sent as hex, in either letter case, in a str tag in any letter case and behind no earlier match, is what both reads return. |
| RcpReply.HexInPayloadRoundTrip | src/bosch_shc_camera_client/rcp.py:505-510 | So is it in a payload tag, when no str tag matches. |
| RcpReply.ReadsAgreeUnlessOddHex | src/bosch_shc_camera_client/rcp.py:227-256 | The local read raises if and only if the reply is a 200 answer without an error whose captured hex has odd length; there the cloud read returns None, and on every other reply, and only there, the two agree. |
| RcpReply.OddHexRaises | src/bosch_shc_camera_client/rcp.py:245-251 | Every odd number of hex digits in the str tag makes the local read raise and the cloud read return None. |
| RcpReply.ThreeHexDigitsRaise | src/bosch_shc_camera_client/rcp.py:250-255 | The body `<str>abc</str>` is such a reply. |
| RcpReply.ErrorDropsIffClosesOnce | src/bosch_shc_camera_client/rcp.py:485-496 | An error 0x0c0d in any letter case, behind no earlier match, drops the session if and only if its closing tag is not repeated in the same stretch without white space. |
| RcpReply.RepeatedCloseKeepsTheSession | src/bosch_shc_camera_client/rcp.py:485-496 | The body `<err>0x0c0d</err></err>` drops nothing. |
| RcpReply.CloudReadIsNeverEmpty | src/bosch_shc_camera_client/rcp.py:474-522 | A successful cloud read is never empty and never from a reply that drops the session. |
| RcpBodies.OnlyOkIsRead | src/bosch_shc_camera_client/rcp.py:474-483 | Both reads return None on a network error and on every status but 200. |
| RcpBodies.PlainBodyIsItself | src/bosch_shc_camera_client/rcp.py:512-520 | A non-empty 200 body without an angle bracket is itself the payload of both reads; an empty one is none. |
| RcpBodies.UnclosedMarkupIsNothing | src/bosch_shc_camera_client/rcp.py:512-522 | A body that starts with `<` and holds no other one is no payload. |
| RcpBodies.StrIsRead | src/bosch_shc_camera_client/rcp.py:501-504 | The hex of every non-empty byte string in a str tag, between texts without `<`, is read as those bytes. |
| RcpBodies.PayloadIsRead | src/bosch_shc_camera_client/rcp.py:505-510 | So is it in a payload tag. |
| RcpBodies.StrGoesFirst | src/bosch_shc_camera_client/rcp.py:501-510 | Of a payload tag and a str tag behind it, the str tag is read. |
| RcpBodies.ErrorIsNothing | src/bosch_shc_camera_client/rcp.py:484-498 | Any error code without white space, in err tags of any letter case, makes both reads return None, whatever follows. |
| RcpBodies.DeadSessionErrorDrops | src/bosch_shc_camera_client/rcp.py:485-496 | The code 0x0c0d in any letter case, between texts without `<`, ends the session. |
| RcpBodies.OnlyTheseDrop | src/bosch_shc_camera_client/rcp.py:474-497 | Nothing but a 401, a 403, and a 200 body that holds `<err>0x0c0d</err>` in some letter case ends a session. |
| RcpSessions.SingleFlight | src/bosch_shc_camera_client/rcp.py:34-46 | When all callers share the locks, at every point of every run at most one handshake for a hash is in flight, that hash is then uncached, and every held lock belongs to a call in flight. |
| RcpSessions.InsertionsMinusRemovals | src/bosch_shc_camera_client/rcp.py:87-106 | Over every run, insertions minus removals of a hash is 1 if it is cached and 0 otherwise, and no insert overwrites an entry. |
| RcpSessions.ServedIdsAreFresh | src/bosch_shc_camera_client/rcp.py:88-101 | In every run, an id served at time t was stored by a call whose clock sample t0 satisfies t0 <= t < t0 + 300, is not empty and is not `0x00000000`. |
| RcpSessions.DropsOwnHashIffNoSlash | src/bosch_shc_camera_client/rcp.py:462-469 | The key split off the usual request base is the proxy hash it was built for if and only if the hash holds no slash. |
| RcpSessions.SlashEvictsAnother | src/bosch_shc_camera_client/rcp.py:465-468 | For every host, a failing read for the hash `a/b` evicts `b`. |
| RcpSessions.FailingReadEvictsItsHash | src/bosch_shc_camera_client/rcp.py:474-497 | For every state, host, hash without a slash, session id and body: a 401 or a 403 leaves the cache as it was without the hash, a network error and any status other than 200, 401 and 403 change nothing, and a 200 reply evicts exactly when it drops the session; no other entry, lock or call ever changes. |
| RcpEvictions.UnauthorizedReadEvicts | src/bosch_shc_camera_client/rcp.py:476-477 | A read answered by 401 or 403 leaves exactly the cache without its hash, whatever the body. |
| RcpEvictions.OtherFailuresEvictNothing | src/bosch_shc_camera_client/rcp.py:474-483 | A network error and every status other than 200, 401 and 403 leave the whole state alone. |
| RcpEvictions.OnlyRcpBasesEvict | src/bosch_shc_camera_client/rcp.py:462-469 | A 401 or 403 on the base of a host, a hash, a last part and any number of slashes evicts the hash if that part is `rcp.xml`, and nothing otherwise. |
| RcpEvictions.BareBasesEvictNothing | src/bosch_shc_camera_client/rcp.py:465-466 | A base without a slash before its trailing ones evicts nothing. |
| RcpEvictions.DeadSessionErrorEvicts | src/bosch_shc_camera_client/rcp.py:485-497 | A 200 answer with error 0x0c0d in any letter case, between texts without `<`, leaves exactly the cache without its hash. |
| RcpEvictions.OnlyTheErrorEvicts | src/bosch_shc_camera_client/rcp.py:485-497 | A 200 answer that changes anything holds the text `<err>0x0c0d</err>` in some letter case. |
| RcpEvictions.StoredForFiveMinutes | src/bosch_shc_camera_client/rcp.py:88-101 | A session stored by a call whose clock sample was t0 is served without a new handshake at t if and only if t < t0 + 300. |
| RcpSessionRaces.UnsharedCallersRace | src/bosch_shc_camera_client/rcp.py:103-106 | For every two callers of which the first passes no locks, and every hash: a run with both handshakes in flight at one point, in which the second insert overwrites the first, whether or not the second caller locks. |
| RcpSessionRaces.NoOverwriteIffAllLock | src/bosch_shc_camera_client/rcp.py:79-106 | For callers each of which always or never passes the shared locks: no insert overwrites a cached entry in any run if and only if every one of them does. |
| RcpSessionRaces.LateFailureEvictsANewerSession | src/bosch_shc_camera_client/rcp.py:462-469 | For every hash without a slash, over shared locks: a run in which two reads use the session of one handshake, both meet a 401, and the later 401 evicts the session a second handshake has stored in between. |
| RcpSessionRaces.EvictsItsOwnSessionIffNoneStoredSince | src/bosch_shc_camera_client/rcp.py:462-497 | In every run, a failing read whose id was that of the entry cached at point i evicts at point j the session of the same handshake if and only if no handshake of that hash stored one in between; otherwise it evicts what the last of them stored. |
| RcpSessionRaces.CachedIsLastInserted | src/bosch_shc_camera_client/rcp.py:96-101 | In every run, a cached entry is the id and the expiry of the last handshake that stored one for that hash. |
| RcpSessions.RcpSession | src/bosch_shc_camera_client/rcp.py:137-190 | A handshake never yields an empty id or `0x00000000`. |
| RcpSessions.SessionIdIsReadIff | src/bosch_shc_camera_client/rcp.py:153-169 | An id in a session tag behind no earlier match is what the handshake yields if and only if it is not `0x00000000` and its closing tag is not repeated in the same stretch without white space. |
| RcpHandshakes.SessionTagIsRead | src/bosch_shc_camera_client/rcp.py:152-169 | An id without white space in the tag `sessionid`, in any letter case and between texts without `<`, is the session, unless it is `0x00000000`. |
| RcpHandshakes.SessionsAreTagged | src/bosch_shc_camera_client/rcp.py:140-169 | Whatever the answer, a session comes only from a 200 and stands in it as `<sessionid>`, the id, `</sessionid>`, in some letter case. |
| RcpSessionTable.Sessions.GetSessionLock | src/bosch_shc_camera_client/rcp.py:34-46 | The lock of a hash is created at most once and then returned unchanged. |
| RcpSessionTable.Sessions.BeginGet | src/bosch_shc_camera_client/rcp.py:87-106 | The in-place lookup with its expiry and its lock is exactly the Enter step, and returns the cached id if and only if it is fresh. |
| RcpSessionTable.Sessions.FinishGet | src/bosch_shc_camera_client/rcp.py:96-101 | Storing the handshake result and releasing the lock is exactly the Finish step. |
| RcpSessionTable.Sessions.RcpRead | src/bosch_shc_camera_client/rcp.py:462-522 | A read returns the extracted payload and evicts exactly as the Read step does. |
| RcpClock.ClockAcceptsRealDates | src/bosch_shc_camera_client/rcp.py:858-899 | The field tests together with the calendar accept exactly the payloads whose first 7 bytes are a real date and time of 1970 to 2100. |
| RcpClock.ClockOrder | src/bosch_shc_camera_client/rcp.py:894-896 | For accepted payloads, the lexicographic order of the first 7 bytes is the strict order of the unrounded offsets at any one server time. |
| RcpCodecs.ClockBranchAcceptsRealDates | src/bosch_shc_camera_client/rcp.py:852-915 | The whole clock branch, its XML guard included, accepts exactly those payloads of at least 8 bytes. |
| RcpCodecs.LadderIsAccepted | src/bosch_shc_camera_client/rcp.py:976-1001 | Every non-empty ladder of values 100 to 50000, sent as big-endian words, is never taken for XML and decodes to itself. |
| RcpCodecs.FrontLightReadsBack | src/bosch_shc_camera_client/rcp.py:412-414 | Every integer brightness written by the encoder decodes in the dimmer branch to its clamp to 0..100. |
| RcpCodecs.ParseMotionCoords | src/bosch_shc_camera_client/rcp.py:603-629 | The loop yields one rectangle for each whole record of 8 bytes. |
| RcpCodecs.CoordsJoin | src/bosch_shc_camera_client/rcp.py:609-629 | Parsing distributes over concatenation at record boundaries. |
| RcpCodecs.CoordsInOrder | src/bosch_shc_camera_client/rcp.py:612-628 | The z-th rectangle is decoded from the z-th record. |
| RcpCodecs.RoundingIsClose | src/bosch_shc_camera_client/rcp.py:621-628 | Rounding errs by at most 0.05 percent and keeps the order, whatever each tie does. |
| RcpCodecs.CoordsAcceptedIffNotXmlLike | src/bosch_shc_camera_client/rcp.py:1048-1058 | A payload of at least 16 bytes is accepted if and only if its first byte that is not white space exists and is not `<`. |
| RcpCodecs.RealCoordsCanBeRejected | src/bosch_shc_camera_client/rcp.py:58-61 | A real rectangle from x1 = 2620, with any further records, is rejected as XML. |
| RcpCodecs.ParseIvaCatalog | src/bosch_shc_camera_client/rcp.py:677-702 | The loop is: decode every record, keep the first 65, drop those with id 0. |
| RcpCodecs.ZonesInOrder | src/bosch_shc_camera_client/rcp.py:585-599 | The z-th motion zone is the z-th record of 28 bytes. |
| RcpCodecs.AddressReadsBack | src/bosch_shc_camera_client/rcp.py:927-928 | A four-byte LAN address prints as its bytes in order: the dotted numbers read back. |
| RcpDecodeLaws.UnusablePayloadsAreRejected | src/bosch_shc_camera_client/rcp.py:802-831 | A failed read is a strike for every command; for the eight guarded commands so is every XML envelope, whatever white space it starts with, and every payload below the command's own minimum length. |
| RcpDecodeLaws.DimmerIsAPercentage | src/bosch_shc_camera_client/rcp.py:808-823 | For all bytes a, b and any rest, the dimmer payload is accepted as b if a is 0 and b at most 100, and rejected otherwise. |
| RcpDecodeLaws.PrivacyIsTheSecondByte | src/bosch_shc_camera_client/rcp.py:834-848 | For all bytes a, b and any rest, a neither envelope white space nor `<`, the privacy payload is accepted as exactly b. |
| RcpDecodeLaws.ClockIsTheDate | src/bosch_shc_camera_client/rcp.py:857-915 | The clock payload is accepted as year (two bytes), month, day, hour, minute and second if and only if they are a date of 1970 to 2100, with 29 February in the years divisible by four other than 2100; otherwise it is rejected. |
| RcpDecodeLaws.SecondsAreCounted | src/bosch_shc_camera_client/rcp.py:894-896 | The next calendar day is 86400 s later, and within a day an offset counts 3600, 60 and 1 s for hours, minutes and seconds. |
| RcpDecodeLaws.BitratesAreTheWords | src/bosch_shc_camera_client/rcp.py:980-1001 | Every payload of at least 4 bytes is accepted as its big-endian 32-bit words if all of them are 100 to 50000, and rejected otherwise. |
| RcpDecodeLaws.ProductNameIsTrimmed | src/bosch_shc_camera_client/rcp.py:952-966 | The product name is the text without the white space around it and the NUL bytes at its end, non-ASCII bytes shown as the replacement character; empty texts and those that start with `<` are rejected. |
| RcpDecodeLaws.AddressTextIsTrimmed | src/bosch_shc_camera_client/rcp.py:929-945 | So is a LAN address that does not come as four bytes; the text `0.0.0.0` is rejected too. |
| RcpDecodeLaws.AddressBytesAreDotted | src/bosch_shc_camera_client/rcp.py:927-945 | Four bytes are accepted as their dotted decimals, except for four zeros, which are rejected. |
| RcpDecodeLaws.LongPayloadsAreHandedOn | src/bosch_shc_camera_client/rcp.py:1018-1096 | An alarm catalog or service list of more than 10 bytes that does not start like an envelope, and a certificate of more than 50, are accepted whole; a shorter certificate is passed over. |
| RcpDecodeLaws.ZonesAreTheFirstFive | src/bosch_shc_camera_client/rcp.py:1030-1041 | A payload of at least 28 bytes is accepted as its first five records of 28 bytes, or all of them when it has fewer. |
| RcpDecodeLaws.RectsAreTheRecords | src/bosch_shc_camera_client/rcp.py:609-629 | A payload of at least 16 bytes that does not start like an envelope is accepted as one rectangle for each 8 bytes, x1, y1, x2 and y2 in this order, each within 0.05 percent of its word. |
| RcpDecodeLaws.ModulesAreTheFirst65 | src/bosch_shc_camera_client/rcp.py:677-702 | A payload of at least 6 bytes that does not start like an envelope is accepted as its first 65 records of id, version and flags, active by the last bit of the flags, in order and without those of id 0. |
| RcpFetch.Poller.ReadCommand | src/bosch_shc_camera_client/rcp.py:799-828 | One block sets its field if and only if its reply is accepted, and moves only its own counter. |
| RcpFetch.Poller.ReadAll | src/bosch_shc_camera_client/rcp.py:796-1117 | The twelve blocks read each command below three strikes exactly once, in any state of the counters, and set the accepted fields. |
| RcpFetch.Poller.Fetch | src/bosch_shc_camera_client/rcp.py:731-1119 | A pass keeps every stored count between 1 and 3 and equal to the count over the passes so far, reads exactly the commands below three strikes, sets exactly the fields its accepted replies decode to, and returns None if and only if no session opened; with privacy below three strikes and its reply the str tag of bytes a, b and more, a neither white space nor `<`, the privacy field is b. |
| RcpFetch.StrIsDecoded | src/bosch_shc_camera_client/rcp.py:474-522 | For every command, the verdict on a 200 reply `<str>`, hex of a non-empty byte string, `</str>` is the verdict on those bytes. |
| RcpFetch.CountsAreFailuresSinceSuccess | src/bosch_shc_camera_client/rcp.py:779-792 | Over any sequence of passes a count is the number of rejected reads since the last accepted one, and at most 3. |
| RcpFetch.ThreeStrikesAreFinal | src/bosch_shc_camera_client/rcp.py:779-780 | A command at three strikes stays there and is never read again, whatever passes follow. |
| RcpFetch.OverlapBoundsTheCount | src/bosch_shc_camera_client/rcp.py:779-789 | When passes share the counters and at most k of them read a command at a time, its count plus its reads in flight is at most k + 2 at every point of every run. |
| RcpFetch.ReadsFail | src/bosch_shc_camera_client/rcp.py:779-789 | For every k there is a run with at most k reads at a time whose count reaches 2 + n after n of them have failed, up to k + 2. |
| RcpFetch.CountStopsAtThreeIffNoOverlap | src/bosch_shc_camera_client/rcp.py:779-792 | A count stays at or below 3 over all runs with at most k reads of the command at a time if and only if k is 1. |
| RcpFetch.RepliesAreCounted | src/bosch_shc_camera_client/rcp.py:1030-1074 | A reply that raises nothing goes uncounted if and only if it is a too short answer to 0x0c00 or 0x0b91. |
| DigestSyntax.ParseDigestChallenge | src/bosch_shc_camera_client/auth_utils.py:39-53 | The loop over matches yields the dictionary of the scanned pairs, later ones replacing earlier ones, or fails without the Digest scheme or the nonce. |
| DigestSyntax.ParsedValuesHaveNoQuote | src/bosch_shc_camera_client/auth_utils.py:43-48 | No value of any parsed challenge contains a quote. |
| DigestSyntax.PrintedItemsScanBack | src/bosch_shc_camera_client/auth_utils.py:43-48 | Scanning printed directives yields exactly those directives: nothing inside a quoted value is taken for one. |
| Digest.BuildDigestHeader | src/bosch_shc_camera_client/auth_utils.py:56-132 | The builder, with its reassigned `ha1` and appended parts, prints the directive list that HeaderInFull spells out. |
| Digest.ServerAgrees | src/bosch_shc_camera_client/auth_utils.py:79-103 | From the emitted directives and the password alone, a server computes the same response, for the -sess algorithms and with or without qop. |
| Digest.HeaderReadsBackIffNoQuote | src/bosch_shc_camera_client/auth_utils.py:105-132 | For every parsed challenge with a supported algorithm and any qop list, the header reads back as exactly the emitted directives if and only if user and uri hold no quote. |
| Digest.QuotedUserIsMisread | src/bosch_shc_camera_client/auth_utils.py:106-107 | For the user `a"b` and every challenge, the header does not read back, and the user name a reader gets is another one. |
| Digest.DigestIsVerifiable | src/bosch_shc_camera_client/auth_utils.py:79-132 | For such challenges a server that parses the header accepts it: the response it recomputes is the one received, for the nonce it sent and by the algorithm its challenge named, in capitals, or MD5 when it named none. |
| DigestLaws.HeaderInFull | src/bosch_shc_camera_client/auth_utils.py:105-132 | The header text in full: `Digest `, then username, realm, nonce, uri, algorithm and response, then cnonce with auth or a -sess algorithm, `qop=auth` and `nc=00000001` with auth, and a non-empty opaque, joined by commas, each quoted or bare as in the source. |
| DigestLaws.AnswerFitsItsChallenge | src/bosch_shc_camera_client/auth_utils.py:65-132 | For every parsed challenge that asks for one of the four algorithms, the header names that algorithm in capitals (MD5 when absent), the challenge's realm and nonce, the user and the uri, and a server that hashes by the algorithm, realm and nonce of the challenge it sent accepts it. |
| DigestLaws.ExtrasFollowTheChallenge | src/bosch_shc_camera_client/auth_utils.py:94-130 | `qop` and `nc` are received if and only if the first entry of the challenge's qop list, without the white space around it, is auth; `cnonce` then and for the -sess algorithms; and `opaque` exactly as the challenge gave it, unless that is empty. |
| DigestLaws.NamesInAnyCase | src/bosch_shc_camera_client/auth_utils.py:68-95 | An ASCII entry counts as auth, and an ASCII algorithm as one of the four, if and only if it is that word in some mixture of letter cases. |
| DigestLaws.ChallengeIsRead | src/bosch_shc_camera_client/auth_utils.py:35-53 | A scheme, with or without white space around it, a space and printed directives parse if and only if the scheme is digest in some letter case and one directive is the nonce, and then as the dictionary of those directives. |
| DigestLaws.LastDirectiveCounts | src/bosch_shc_camera_client/auth_utils.py:43-48 | Of several directives with one key the last one is in that dictionary. |
| DigestLaws.DirectiveIsFound | src/bosch_shc_camera_client/auth_utils.py:45 | The scanner finds a directive at the start of a text if and only if a word, an equals sign and a value, quoted or the longest run of word characters and `./+=-`, stand there. |
| DigestLaws.ScanTakesTheLeftmost | src/bosch_shc_camera_client/auth_utils.py:45-48 | The scanned pairs are those of the leftmost directives in order, each key in lower case, and no others. |
| DigestLaws.StaleIffItSaysTrue | src/bosch_shc_camera_client/auth_utils.py:212-215 | Such a challenge is stale if and only if its last stale directive says true in some letter case. |
| DigestLaws.NotStaleUnlessSaid | src/bosch_shc_camera_client/auth_utils.py:212-215 | A challenge without a stale directive is not stale. |
| Digest.SupportedChallenges | src/bosch_shc_camera_client/auth_utils.py:68 | An absent algorithm, or one of the four names in any letter case, is supported. |
| Digest.DigestRequest | src/bosch_shc_camera_client/auth_utils.py:184-228 | At most three requests; each further one answers the 401 just before it, the third only a stale one; the caller gets the last reply, or the ValueError exactly on a first 401 without challenge or a 401 whose challenge does not parse. |
| Segments.SegmentsAreTheEligible | src/bosch_shc_camera_client/mini_nvr.py:193-205 | The list is ascending in time and names exactly the eligible entries of the listing, each once. |
| Segments.SortIsStable | src/bosch_shc_camera_client/mini_nvr.py:204 | Segments of equal time keep the order of the listing. |
| Segments.RemovalKeepsOrder | src/bosch_shc_camera_client/mini_nvr.py:184-205 | Removing entries from the directory removes their segments and leaves the order of the others. |
| Preroll.CameraDir.ListPrerollSegments | src/bosch_shc_camera_client/mini_nvr.py:184-205 | The loop and the sort yield that list, and nothing for a missing or unreadable directory. |
| Preroll.CameraDir.NewestPrerollPath | src/bosch_shc_camera_client/mini_nvr.py:208-211 | The result is an eligible entry that no eligible entry is newer than, the last of the listing among those of its time; None if and only if there is no eligible entry or the directory cannot be read. |
| Preroll.CameraDir.PrunePrerollCache | src/bosch_shc_camera_client/mini_nvr.py:214-225 | Whatever removals fail, exactly the oldest surplus segments that can be removed are gone, nothing else changes, and the result is the number of files that went. |
| Preroll.CameraDir.PruneAndCount | src/bosch_shc_camera_client/mini_nvr.py:228-231 | The result is the number of segments left, and the planned number when no removal fails. |
| Preroll.PruneKeepsTheNewest | src/bosch_shc_camera_client/mini_nvr.py:214-225 | With no failing removal exactly the newest min(n, m) segments stay in order, each at least as new as each removed one, only eligible entries go, and the newest stays when m >= 1. |
| StreamUrl.QuoteRoundTrip | src/bosch_shc_camera_client/live.py:73 | Percent-encoding with no safe characters decodes back (section 2.1 of RFC 3986) and yields only unreserved characters and `%`. |
| StreamUrl.CredentialsRoundTrip | src/bosch_shc_camera_client/live.py:71-77 | From every address the user and the password split off and decode back, for all byte strings. |
| StreamUrlLaws.AddressInFull | src/bosch_shc_camera_client/live.py:65-77 | The whole address, each literal and part in its place, for the instances 1 to 4; every other instance is refused. |
| StreamUrlLaws.BytesAreEncodedOneByOne | src/bosch_shc_camera_client/live.py:73 | Letters, digits and `_.-~` stand for themselves, every other byte for a percent sign and two capital hex digits. |
| AddressReader.AddressIsInjective | src/bosch_shc_camera_client/live.py:56-77 | Two printed addresses are equal only if user, password, host, port, instance, audio flag and duration all are, on all hosts and ports. |
| AddressReader.AddressReadsBackIffHost | src/bosch_shc_camera_client/live.py:71-77 | A reader that cuts and checks an address by sections 3.2 to 3.5 of RFC 3986 gets back every part if and only if the host is a registered name, or an IPv6 or future address literal when it holds a colon, and the port is not negative; credentials, instance, audio flag and duration never matter. |
| AddressReader.DelimitersInTheHostAreLost | src/bosch_shc_camera_client/live.py:71-74 | The hosts `a/b`, `[x`, `u@h` and `a:b` do not read back. |
| AddressReader.Ipv6HostsReadBack | src/bosch_shc_camera_client/live.py:71 | The hosts `::1` and every eight groups of one to four hex digits read back with every port, instance and credential. |
| AddressReader.DefaultHostReadsBack | src/bosch_shc_camera_client/live.py:62 | The default host reads back with every port, instance and credential. |
| AddressReader.QueryReadsBack | src/bosch_shc_camera_client/live.py:74-76 | Printed query entries with distinct keys are each found under their key. |
| StreamUrl.FixedIffNamesOnlyFour | src/bosch_shc_camera_client/mini_nvr.py:34-35 | The substitution leaves a text alone if and only if every instance it names is already 4. |
| StreamUrl.SubInstNamesOnlyFour | src/bosch_shc_camera_client/mini_nvr.py:34-35 | After the substitution every instance named is 4. |
| StreamUrl.ApplyQualityIsIdempotent | src/bosch_shc_camera_client/mini_nvr.py:25-37 | On every URL and for every quality, applying it twice is applying it once. |
| StreamUrl.LowQualityCommutesWithPrinting | src/bosch_shc_camera_client/mini_nvr.py:32-37 | For all credentials and hosts, low quality applied to a printed address is the address of instance 4 if and only if every instance the host names is 4. |
| StreamUrl.HostNamingAnInstance | src/bosch_shc_camera_client/mini_nvr.py:34-35 | On the host `inst=2` the two do not commute. |
| StreamUrl.LowQualityOnPlainHosts | src/bosch_shc_camera_client/live.py:71-77 | For every host without `=` the two commute. |
| StreamUrlLaws.OtherUrlsAndQualities | src/bosch_shc_camera_client/mini_nvr.py:32-37 | Every quality but low leaves every URL alone; low appends `&inst=4` or `?inst=4`, by whether a `?` is there, to a URL that holds no `inst=`. |
| StreamUrlLaws.LowQualityNamesFour | src/bosch_shc_camera_client/mini_nvr.py:34-35 | A URL with one `inst=` and a number gets 4 in place of the whole number and keeps all the rest. |
| Sanitizer.SafeNamesAreTheFixedPoints | src/bosch_shc_camera_client/media_transfer.py:67-73 | Every result has at most 64 characters, no two adjacent dots and only allowed characters; the names with these properties are exactly those left alone; sanitizing twice is sanitizing once. |
| Sanitizer.CharactersStayInPlace | src/bosch_shc_camera_client/media_transfer.py:73 | A name without `..` keeps its first 64 characters in place, each disallowed one as an underscore. |
| Sanitizer.DotRunsAreReplaced | src/bosch_shc_camera_client/media_transfer.py:73 | A run of n dots between two texts without adjacent dots becomes n / 2 underscores, and the last dot when n is odd, before the cut at 64. |

## Left out

- Request building and field validation (`actions.py`, `cameras.py`, `client.py`, `cloud.py`, `events.py`, `settings.py`, `states.py`): one branch settles each property.
- Sockets, TLS, aiohttp, FTP, ffmpeg, subprocesses, keepalive tuning, `confirm_encoder_ready` and `_address`: their outcomes are parameters of a step or are not part of this model.
- asyncio cancellation, and exceptions raised by `server.close()` or `writer.close()`; the model closes a server in the step that removes it.
- The scheduling points are at least those of the source. The step system also lets events run where the source awaits nothing, between `BeginStart` of an absent proxy and the listening socket, and lets connects fail before the server is installed. A trip there is the state Aborted. In the source the event loop makes a single pass between opening the socket and binding `server`, so no connect can fail that early; FiredMeansClosed is stated for the runs in which none does.
- The `on_proxy_died` callback is counted; what it does synchronously to the caches is not modelled. The two awaits on `wait_closed` may last any time, so their 5 s bound plays no part.
- PreWarm.PreWarmRtsp: `writer.close()` does not raise.
- Log output and the redacted debug preview of the relay.
- UTF-8 decoding in the relay is an arbitrary pair of functions; the substitution laws hold for every decoded text.
- The Unicode classes behind `\w` and `\d` and the case mappings are parameters that agree with ASCII on ASCII text; `\s` is Python's white space.
- The hash functions are uninterpreted, the client nonces arbitrary strings without a quote, and the digest uri is given: `urlparse` is not modelled.
- Time is `real`; percentages are tenths with each rounding tie left open, so the binary representation of the rounded results is not modelled.
- The alarm catalog, network services and certificate parsers: their branch hands over the payload, and only the tests around them are modelled.
- The transport of `rcp_local_write` and the privacy writer.
- The acknowledgement of the RCP handshake, whose outcome the source ignores.
- RcpFetch.Poller.Fetch: takes the passes over one `cmd_failures` one after the other; what overlapping passes do to a counter is stated by OverlapBoundsTheCount and CountStopsAtThreeIffNoOverlap.
- RcpSessions.FailingReadEvictsItsHash: requires a hash without a slash, the exact condition of DropsOwnHashIffNoSlash.
- Preroll.PruneKeepsTheNewest: assumes that no other process changes the directory between the listing and the removals.
- Sanitizer.SafeNamesAreTheFixedPoints: requires that the underscore is a word character, as it is in every Unicode table.
