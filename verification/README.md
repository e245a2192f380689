# Verified model of the rotating exit proxy

The repository runs a pool of upstream proxies behind one HTTP/SOCKS5 front end. A fetcher adds
candidates that pass a test, a retester refreshes or removes what is in the pool, a rotator publishes
one proxy at a time as the exit, an admin server pages, deletes and rotates, and every client
connection is tunnelled through the exit that was current when it was accepted. The project models
these parts and proves what they keep, over every run, schedule and byte stream.

Check it with `dafny verify dfyconfig.toml`.

## How it is laid out

| file | models |
|---|---|
| `Text.dfy`, `HostPort.dfy` | Go's trimming, `Atoi`, `net.SplitHostPort`/`JoinHostPort` on ASCII text; the pool's address parser and printer; the destination normaliser |
| `ProxyTable.dfy`, `ProxyStore.dfy` | the meaning of the `proxies` table as a sequence of atomic statements, and the store class over it with its batched delete |
| `Rotation.dfy`, `ExitRuns.dfy`, `RotationClock.dfy` | the rotator class and its fairness; its calls interleaved with each other and with every statement; the ticking loop |
| `WorkerPool.dfy`, `Retesting.dfy`, `Fetching.dfy`, `LateReports.dfy` | the semaphore-bounded worker pool as a machine over single steps, the two operations built on it, and a retest that outlives the deletion of a row |
| `Wire.dfy`, `Socks5.dfy`, `Socks5Server.dfy`, `Tunnel.dfy` | the buffered connection over arbitrary pieces, the SOCKS5 handshake as a pure parser (sections 3 to 6 of RFC 1928, section 2 of RFC 1929), the handler refined against it, and the two-way copy |
| `Credentials.dfy`, `HttpProxy.dfy`, `Upstreams.dfy`, `Server.dfy` | Basic credentials (section 2 of RFC 7617, section 4 of RFC 4648) compared with SOCKS5 ones, the HTTP request loop as events, and the dispatch of one connection |
| `Settings.dfy`, `SettingsManager.dfy` | normalisation, validation, patches and derived durations; write-through with failures and restarts |
| `AdminServer.dfy` | pages of the pool and the delete action |

## How concurrency and failure are modelled

* Every SQL statement is one atomic step on the table, because the store uses a single connection
  (internal/store/store.go:32-35). A failed statement or transaction changes nothing. A conflicting
  upsert may or may not use up an id, so the counter is only known not to go down.
* A worker of the pool takes eight steps: it is dispatched (which takes a slot of the semaphore and
  joins the wait group), is counted as tested, tests, executes its statement, counts its outcome,
  samples its error, gives its slot back and leaves the wait group. A schedule is any sequence of such
  steps, with the context cancelled at any point. What a test and a statement answer, before or after a
  cancellation, is an input.
* `Rotator.Advance` lists and publishes as two steps under a mutex; statements and other calls go on in between.
* Test verdicts, store errors, schedules, readings of the clock, and the success of reads, writes and
  dials are inputs, without any assumption about them unless a statement names one.

## Where the code does not do what one might expect

Each of these is a lemma below, with the exact condition.

* A deleted exit can be published once more: by a call that had listed the pool before the delete and
  publishes after it (`ExitRuns.DeletedExitCanReappear`, `ExitRuns.DeletedPublishedExactlyIfPending`).
* A deleted address comes back when a fetch or a retest reports it later
  (`ProxyTable.BroughtBackExactly`). A retest that listed the row before the delete does so exactly if
  its worker had not yet executed its statement, the test passes and the store takes the report; the
  row then has a new id (`LateReports.LateReportRevives`, with a run in
  `LateReports.DeletedAddressReturns`).
* The fetcher drops repeated texts, not repeated addresses, so two spellings of one address are both
  tested and `Inserted` can exceed the growth of the pool (`Fetching.SpellingsBothTested`,
  `Fetching.FetchConfluent`).
* In both worker pools, the `break` in the dispatch loop leaves only its `select`
  (internal/pool/fetcher.go:147-151, internal/pool/retester.go:105-109), so cancelling the context at any
  step stops no job from being dispatched, tested and counted (`WorkerPool.CancellationStopsNothing`).
* An address whose host starts with a blank is accepted but not printed back to itself
  (`HostPort.ParsePrintParse`); `[ a]:80` is such a text (`HostPort.BlankLedHostAccepted`).
* HTTP and SOCKS5 agree on all credentials only if the configured ones have no colon and fit into 255
  bytes each (`Credentials.AgreeOnAnyPair`, `Credentials.AgreeOnEveryPair`).
* A hold or timeout of more than 9,223,372,036 seconds overflows 64-bit nanoseconds and is not used as
  configured (`Settings.ClampsNeverFire`, `Settings.HoldOverflows`).

## Model

| member | source | states |
|---|---|---|
| `HostPort.SplitInvertsJoin` | internal/proxy/http_proxy.go:203-205 | splitting undoes joining for exactly those hosts and ports without brackets whose port has no colon |
| `HostPort.SplitsExactly` | internal/proxy/http_proxy.go:203-205 | exactly what splits: `h:p` with no colon in h, or `[h]:p`, without any other bracket and with no colon in p |
| `HostPort.SplitIsClean` | internal/proxy/http_proxy.go:203-205 | whatever splits gives a host and a port without brackets, and a port without colons |
| `HostPort.ParseInvertsPrint` | internal/pool/parse.go:10-35 | the parser undoes the printer on exactly the addresses whose host is not blank, does not start with a blank and has no bracket at either end, with a port of 1 to 65535; unbracketed IPv6 included |
| `HostPort.ParsedIsPrintable` | internal/pool/parse.go:19-34 | every accepted address has a non-blank host without outer brackets and a port in range |
| `HostPort.ParsesAtLastColon` | internal/pool/parse.go:10-35 | a text is read as a host and a port exactly if trimmed it is, on the two sides of its last colon, a host not blank without its outer brackets and a number from 1 to 65535; the standard split decides nothing more |
| `HostPort.ParsePrintParse` | internal/pool/model.go:16-18 | an accepted text is a fixed point of parse, print, parse exactly if its host has no leading blank |
| `HostPort.BlankLedHostAccepted` | internal/pool/parse.go:11-34 | an accepted text whose host starts with a blank, and which is not printed back to itself |
| `HostPort.TrailingBlankParses` | internal/pool/parse.go:11-14 | a printed address with a blank after it is read as the same address |
| `HostPort.NormalizeKeepsMeaning` | internal/proxy/http_proxy.go:198-218 | `h:p`, `[h]:p`, `h`, `[h]` and bare hosts with many colons normalise to text that splits into exactly that host and port, or the default port; normalising again with any default changes nothing |
| `HostPort.RepairsHalfBracketed` | internal/proxy/http_proxy.go:207-215 | a host with one bracket lost before a numeric port is repaired |
| `HostPort.OnlyBlankHasNoDestination` | internal/proxy/http_proxy.go:198-202 | only a blank text normalises to nothing |
| `Text.AtoiInvertsItoa` | internal/admin/server.go:368-374 | reading a printed number gives it back exactly if it fits in 64 bits |
| `Text.AtoiExactly` | internal/admin/server.go:368-374 | exactly the texts read as a number: digits, perhaps after one sign, within 64 bits |
| `Text.DigitsAreDecimal` | internal/admin/server.go:368-374 | each further digit counts ten times what came before, plus itself |
| `Text.BlanksAre` | internal/config/settings.go:105-107 | the six blanks of ASCII |
| `Text.EqualFoldExactly` | internal/proxy/http_proxy.go:165-165 | texts are equal but for case exactly if they are as long and agree in every place up to the case of a letter |
| `Text.BlankMeansNothingLeft` | internal/config/settings.go:105-107 | trimming leaves nothing exactly of blank text |
| `ProxyTable.ApplyKeepsValid` | internal/store/store.go:87-98 | every statement keeps rows in strict id order, addresses unique, ports positive, latencies non-negative, and the identity of the rows it leaves |
| `ProxyTable.RunKeepsValid` | internal/store/store.go:87-161 | so does every interleaving of fetches, retests and admin deletes, and rows with old ids keep their address and creation time |
| `ProxyTable.UpsertRecords` | internal/store/store.go:131-153 | an accepted report ends up in exactly one row; a known address keeps id, place and creation time, a new one goes last with a fresh id; no other row changes |
| `ProxyTable.RefreshKeepsIdentity` | internal/store/store.go:143-151 | refreshing keeps number, order, ids, addresses and creation times |
| `ProxyTable.WithoutIsExact` | internal/store/store.go:155-161 | a delete leaves exactly the rows whose id is not listed |
| `ProxyTable.DeletesExactly` | internal/store/store.go:247-306 | a batch delete leaves exactly the rows whose id is not listed, whatever else is listed |
| `ProxyTable.MillisAreWhole` | internal/store/store.go:131-153 | the stored latency is the whole milliseconds of the measured one, and 0 for a negative one |
| `ProxyTable.RetiredForever` | internal/store/store.go:87-98 | an id that was issued and is gone never comes back, whatever runs |
| `ProxyTable.IdNamesOneAddress` | internal/store/store.go:87-98 | an id names the same address and creation time at every later moment |
| `ProxyTable.StaleFailureSparesNewRow` | internal/pool/retester.go:125-138 | when a stale retest failure deletes by id, a row for the same address under a newer id stays untouched |
| `ProxyTable.KeysAfterApply` | internal/store/store.go:131-161 | an accepted report adds exactly its address; nothing else adds one |
| `ProxyTable.OnlyReportsBringBack` | internal/pool/retester.go:139-152 | an absent address stays absent in any run without a report for it |
| `ProxyTable.RowStays` | internal/store/store.go:131-161 | a statement leaves a row, under its id, address and creation time, exactly unless it deletes that id |
| `ProxyTable.BroughtBackExactly` | internal/store/store.go:131-161 | an absent address is there at the end of a run if and only if some statement reports it and nothing later deletes the row it has from then on |
| `ProxyStore.Store.UpsertUsableProxy` | internal/store/store.go:131-153 | refuses a blank protocol, a blank host and a port that is not positive; otherwise is the upsert; a failure changes nothing |
| `ProxyStore.Store.DeleteProxyByID` | internal/store/store.go:155-161 | an impossible id is no error and a failure changes nothing; otherwise exactly the row with that id goes |
| `ProxyStore.Store.ListProxies` | internal/store/store.go:163-182 | all rows, as the table keeps them in id order, or none with an error |
| `ProxyStore.Store.ListProxiesPage` | internal/store/store.go:184-211 | the rows from the offset on, at most `limit` of them, in order; none for a limit that is not positive |
| `ProxyStore.Store.CountProxies` | internal/store/store.go:239-245 | the number of rows |
| `ProxyStore.Store.DeleteProxiesByIDs` | internal/store/store.go:247-306 | on success exactly the rows whose id is not listed are left, for any ids, with the exact count; batches are non-empty, at most 900 long and name each positive id once; any failure leaves the table as it was and the result 0 |
| `ProxyStore.DeleteInBatches` | internal/store/store.go:276-299 | the statements of the transaction together delete exactly the listed rows and add up to their number, unless one fails |
| `ProxyStore.PositiveOnce` | internal/store/store.go:252-263 | keeps each positive id once |
| `ProxyStore.WithoutTwice` | internal/store/store.go:276-299 | deleting in two batches is deleting the union |
| `Rotation.Rotator.Advance` | internal/proxy/rotator.go:42-82 | publishes the row at the index, restarting at 0 past the end, moves on, and holds from now for the given time or, if that is not positive, a minute; a failed listing changes nothing |
| `Rotation.BoundedFairness` | internal/proxy/rotator.go:56-75 | a proxy that stays listed is published within (d + 1)(n - 1) + 1 calls, for lists of at most n rows and d smaller ids deleted meanwhile; within n if rows are only inserted |
| `Rotation.MeetsPlace` | internal/proxy/rotator.go:62-75 | the index reaches a place in time, however the list shrinks before it or grows after it |
| `Rotation.FollowsChurns` | internal/store/store.go:163-168 | between two listings ids only vanish or are added at the end |
| `Rotation.FixedPoolRoundRobin` | internal/proxy/rotator.go:62-75 | on a fixed pool of n rows the k-th call serves row (start + k) mod n |
| `Rotation.OneRoundServesEachOnce` | internal/proxy/rotator.go:62-75 | on a fixed pool n calls serve each row exactly once |
| `ExitRuns.HappenKeepsClear` | internal/proxy/rotator.go:47-81 | once deleted ids are neither in the table nor about to be published, no step changes that |
| `ExitRuns.DeletedNeverPublished` | internal/proxy/rotator.go:47-81 | so no call that lists after the delete ever publishes a deleted id, in any interleaving |
| `ExitRuns.DeletedPublishedExactlyIfPending` | internal/proxy/rotator.go:47-81 | a deleted id can still be published if and only if a call that listed before the delete is about to publish it |
| `ExitRuns.DeletedPublishedAtMostOnce` | internal/proxy/rotator.go:47-81 | and then only by the next publication |
| `ExitRuns.DeletedExitCanReappear` | internal/proxy/rotator.go:47-81 | a concrete run in which it is |
| `ExitRuns.DeleteRetires` | internal/store/store.go:247-306 | a delete retires every listed id that had been issued |
| `ExitRuns.DeletedExitDoesNotReturn` | internal/admin/server.go:245-265 | after the handler's own rotation has listed and published, no exit in use or published later has a deleted id, with other calls in flight |
| `ExitRuns.PublishedArePicked` | internal/proxy/rotator.go:47-81 | in every interleaving of calls and statements the k-th publication is the round robin's k-th pick from the lists seen |
| `ExitRuns.ListsChurn` | internal/proxy/rotator.go:47-53 | whatever statements run in between, successive lists are in id order and only lose rows or gain newer ones at the end |
| `ExitRuns.RunFairness` | internal/proxy/rotator.go:42-82 | bounded fairness in every run: a proxy that every publishing call listed is published within (d + 1)(n - 1) + 1 of them, with other calls, fetches, retests and deletes interleaved |
| `RotationClock.RunRotator` | cmd/scdn-io-proxy/main.go:81-114 | the loop calls the rotator at a tick with an exit exactly once the exit has expired, and at a tick without one exactly if it is the first such look or five seconds after the last; each call leaves a row of the pool held from its listing; otherwise nothing changes |
| `RotationClock.LoopRunsRightly` | cmd/scdn-io-proxy/main.go:88-113 | the same of the state machine that the loop follows |
| `RotationClock.ExitIsHeld` | cmd/scdn-io-proxy/main.go:85-104 | an exit, chosen at startup or at a tick, is not replaced by any tick before its expiry |
| `RotationClock.LooksAreSpaced` | cmd/scdn-io-proxy/main.go:106-112 | two looks at the pool for want of an exit are at least five seconds apart |
| `RotationClock.ExpiredExitIsRechosen` | cmd/scdn-io-proxy/main.go:98-104 | with ticks at most delta apart and working listings, an exit listed at t with hold h stays until a tick at or after t + h and before t + h + delta, where a new choice is published |
| `RotationClock.StartupExitIsRechosen` | cmd/scdn-io-proxy/main.go:85-104 | the same for the exit chosen before the first tick |
| `RotationClock.ExitAppearsInTime` | cmd/scdn-io-proxy/main.go:106-112 | once the pool is and stays non-empty an exit appears within five seconds and one tick, and there is one ever after |
| `WorkerPool.StepInv` | internal/pool/retester.go:88-158 | every step keeps the semaphore, the wait group and all counters equal to what the workers' stages say |
| `WorkerPool.PlayInv` | internal/pool/fetcher.go:130-192 | so does every schedule, with anyone else using the table |
| `WorkerPool.NeverTooManyTests` | internal/pool/retester.go:89-114 | never more tests run than the limit |
| `WorkerPool.LimitIsKept` | internal/pool/retester.go:89-114 | nor at any point on the way there |
| `WorkerPool.OutcomesAre` | internal/pool/retester.go:125-152 | a passed test counts as stored exactly if the store takes the report, and else as a store error; a failed one as failed, unless a retest's delete was sent and did not work |
| `WorkerPool.SomeoneCanStep` | internal/pool/fetcher.go:153-156 | no deadlock: until all are done somebody can move, and whoever was started always can |
| `WorkerPool.EveryScheduleFinishes` | internal/pool/fetcher.go:146-192 | every schedule ends, after exactly eight steps per job |
| `WorkerPool.CancellationStopsNothing` | internal/pool/fetcher.go:146-156 | the context may be cancelled at any step: the run is the run without the cancellations, and one that cannot go on has dispatched, tested and counted every job |
| `WorkerPool.AccountsBalance` | internal/pool/retester.go:154-158 | when the wait returns the semaphore is empty, every job was tested once and has one outcome, and up to five errors were sampled, each of a different job that failed |
| `WorkerPool.PlayKeepsValid` | internal/pool/retester.go:125-152 | the pool invariant survives every schedule interleaved with other writers |
| `WorkerPool.RunPool` | internal/pool/retester.go:104-154 | dispatching and waiting on the store, with a cancellation at any time, is some schedule of the machine, run to its end |
| `WorkerPool.RecordVerdict` | internal/pool/retester.go:125-152 | a verdict becomes the right statement, and the statement's error decides the outcome that is counted |
| `Retesting.RetestConfluent` | internal/pool/retester.go:76-158 | for every schedule, limit, cancellation, verdicts and store errors, with no other writer, a retest leaves exactly the rows of a sequential pass with the same verdicts and clock readings, times included |
| `Retesting.RetestedIsExact` | internal/pool/retester.go:125-152 | the result has exactly what becomes of each row; a row whose statement failed is there untouched |
| `Retesting.BecomesOfEach` | internal/pool/retester.go:125-152 | what becomes of each row, by its answer, and that nothing else is in the pool |
| `Retesting.CountOutcomes` | internal/pool/retester.go:125-152 | each outcome is counted once for each row with the matching answer |
| `Retesting.OnlyTimesDiffer` | internal/pool/retester.go:76-158 | two schedules with the same verdicts leave the same rows but for the times of rows that passed |
| `Retesting.RetestedSize` | internal/pool/retester.go:125-138 | the pool shrinks by exactly the removed rows |
| `Retesting.RetestOnce` | internal/pool/retester.go:53-164 | in terms of the rows and the answers alone: a row whose statement fails is untouched, one that passes is refreshed with its latency, one that fails is gone, nothing else is there; updated, removed and errors are the numbers of those rows and add up to total = tested; up to five errors are sampled, of different rows that failed; never more tests than the limit; a failed listing changes nothing |
| `LateReports.OpStanding` | internal/store/store.go:131-161 | no statement of a retest but a report for the address makes a deleted address present, and then under a newer id |
| `LateReports.LateReportRevives` | internal/pool/retester.go:125-152 | after an address is deleted in mid-retest it is back at the end if and only if its worker had not executed its statement, its test passes and the store takes the report; and then under an id not issued at the delete |
| `LateReports.DeletedAddressReturns` | internal/pool/retester.go:125-152 | a concrete run in which it is |
| `Fetching.CollectCandidates` | internal/pool/fetcher.go:93-109 | the loop keeps exactly the first occurrence of every text that parses, in order |
| `Fetching.CandidatesCoverAddresses` | internal/pool/fetcher.go:93-109 | the candidates' addresses are exactly the host and port, under the configured protocol, of the texts that parse: dropping repeated texts loses none and invents none |
| `Fetching.CandidatesHaveCountry` | internal/pool/fetcher.go:103-108 | every candidate has the configured country |
| `Fetching.CandidatesAreComplete` | internal/pool/fetcher.go:99-108 | candidates have the fields the store insists on exactly if a protocol is configured |
| `Fetching.SpellingsBothTested` | internal/pool/fetcher.go:93-98 | two spellings of one address become two candidates for that host and port |
| `Fetching.FetchConfluent` | internal/pool/fetcher.go:146-192 | for every schedule the final addresses are the old ones and those stored; growth is the number of new ones among them, at most `Inserted`, and equal exactly if they are new and all different |
| `Fetching.FetchRows` | internal/pool/fetcher.go:170-180 | for every schedule a row whose address no stored candidate has is as it was, and any other changed row has the country and latency of a candidate stored under its address |
| `Fetching.CountOutcomes` | internal/pool/fetcher.go:157-192 | each outcome is counted once for each candidate with the matching answer |
| `Fetching.FetchOnce` | internal/pool/fetcher.go:61-208 | in terms of the texts and the answers alone: the candidates are the first occurrences of texts that parse; inserted, failed and store errors are the numbers of those that pass and are stored, fail, and pass but are not stored; the addresses added are exactly the hosts and ports of the stored ones, with the configured protocol and country; other rows are untouched; up to five errors are sampled, of different candidates that were not stored; never more tests than the limit |
| `Wire.BufferedConn.Read` | internal/netx/buffered_conn.go:14-16 | hands out what was buffered first and neither loses nor reorders a byte |
| `Wire.BufferedConn.ReadFull` | internal/proxy/socks5_server.go:162-166 | exactly the next n bytes, however they arrive |
| `Wire.BufferedConn.Peek` | internal/proxy/server.go:68-73 | shows the first byte and takes nothing |
| `Socks5.NegotiateReads` | internal/proxy/socks5_server.go:18-36 | a greeting that offers user/password is accepted and exactly consumed |
| `Socks5.NegotiateExactly` | internal/proxy/socks5_server.go:18-36 | only such a greeting is accepted |
| `Socks5.AuthenticateReads` | internal/proxy/socks5_server.go:38-64 | the configured credentials are accepted and exactly consumed |
| `Socks5.AuthenticateExactly` | internal/proxy/socks5_server.go:38-64 | only they are |
| `Socks5.ReadAddressReads` | internal/proxy/socks5_server.go:124-152 | an encoded IPv4, domain or IPv6 address is read back |
| `Socks5.ReadAddressExactly` | internal/proxy/socks5_server.go:124-152 | what is read is such an encoding |
| `Socks5.RequestReads` | internal/proxy/socks5_server.go:66-93 | an encoded request is read back with its command, address and port |
| `Socks5.RequestExactly` | internal/proxy/socks5_server.go:66-93 | what is read is such an encoding |
| `Socks5.HandshakeReads` | internal/proxy/socks5_server.go:16-116 | round trip: any well-formed message with the right credentials, followed by anything, gives its destination, its reply, exactly its bytes consumed and the rest left |
| `Socks5.MessagesAreStandard` | internal/proxy/socks5_server.go:17-93 | the messages are those of section 3 to 5 of RFC 1928 and section 2 of RFC 1929, byte by byte |
| `Socks5.DialMeansMessage` | internal/proxy/socks5_server.go:95-106 | a dial means the bytes read were a CONNECT message with the configured credentials |
| `Socks5.DialsExactly` | internal/proxy/socks5_server.go:16-116 | for every stream a destination is dialled if and only if there is an exit and the stream starts with such a message for it |
| `Socks5.PrefixNeverDials` | internal/proxy/socks5_server.go:16-116 | no proper prefix of a message causes a dial, under any configuration |
| `Socks5.MessagesArePrefixFree` | internal/proxy/socks5_server.go:16-116 | no message is a proper prefix of another |
| `Socks5.OutputIsLegal` | internal/proxy/socks5_server.go:31-122 | what is written is a prefix of a legal script with at most one ten-byte reply of code 0, 1, 7 or 8; success is reported exactly when the tunnel opens, and a dial only follows accepted credentials |
| `Socks5.GreetingRefused` | internal/proxy/socks5_server.go:18-35 | another version is dropped in silence; a greeting without user/password is answered `05 FF` |
| `Socks5.LoginRefused` | internal/proxy/socks5_server.go:38-63 | another authentication version is dropped; any other credentials are answered `01 01` |
| `Socks5.RequestRefused` | internal/proxy/socks5_server.go:66-88 | another request version is dropped; an unknown address type and an address cut short are answered with code 8 |
| `Socks5Server.FindByte` | internal/proxy/socks5_server.go:168-175 | finds a byte exactly if it is there |
| `Socks5Server.NegotiateOn` | internal/proxy/socks5_server.go:18-36 | on a connection that arrives in pieces, the greeting stage writes, consumes and decides what the pure parser says |
| `Socks5Server.AuthenticateOn` | internal/proxy/socks5_server.go:38-64 | so does the credentials stage |
| `Socks5Server.ReadSocksAddr` | internal/proxy/socks5_server.go:124-152 | so does the address reader; a read that fails part way uses up the stream |
| `Socks5Server.ReadUint16` | internal/proxy/socks5_server.go:154-160 | the port, big-endian |
| `Socks5Server.ReadRequestOn` | internal/proxy/socks5_server.go:66-92 | so does the request reader |
| `Socks5Server.ServeOn` | internal/proxy/socks5_server.go:66-115 | so does the request stage; what it dials leads to the requested host and port, and it dials before it writes anything |
| `Socks5Server.HandleSocks5` | internal/proxy/socks5_server.go:16-116 | the whole handler refines the pure parser for every split of the stream, leaves exactly the rest, dials through the exit a text that splits into the requested host and port, and only after `05 02 01 00` was written |
| `Socks5Server.DestTextKeepsDest` | internal/proxy/socks5_server.go:93-93 | the dialled text splits back exactly if the host has no bracket; the host names the address, and IPv4 hosts never have a bracket |
| `Socks5Server.HostTextNames` | internal/proxy/socks5_server.go:124-152 | an IPv4 host is four decimal numbers, its octets in order, joined by dots; a domain is its bytes |
| `Socks5Server.DestTextLeads` | internal/proxy/socks5_server.go:93-93 | the dialled text is that host and the port's number, and splits back into them |
| `Tunnel.ActKeepsLedger` | internal/netx/pipe.go:13-22 | every action keeps given + in hand + unread equal to what was sent |
| `Tunnel.DeliveredInOrder` | internal/netx/pipe.go:9-25 | in every interleaving each side was given an in-order prefix of what the other sent, and all of it exactly if all was read and no write failed |
| `Tunnel.ClosedExactlyAtTheEnd` | internal/netx/pipe.go:13-24 | a connection is closed exactly when the copy that writes to it has ended, so both are when the tunnel returns |
| `Tunnel.OneMoreChunk` | internal/netx/pipe.go:13-22 | once one direction has ended the other gives at most the one chunk it holds or has buffered, and takes at most four more actions |
| `Tunnel.OneMoreChunkBack` | internal/netx/pipe.go:13-22 | the same for the other direction |
| `Tunnel.CanAct` | internal/netx/pipe.go:13-22 | a copy that has not ended can act |
| `Tunnel.CanDeliverAll` | internal/netx/pipe.go:9-25 | there is a run of every tunnel that gives both sides all that the other sends |
| `Tunnel.BiCopy` | internal/netx/pipe.go:9-25 | both copies, under any scheduler, are a run of the machine that ends with both ended and both connections closed |
| `Tunnel.TunnelCarriesTheRest` | internal/proxy/socks5_server.go:114-115 | from the first byte of the connection: the tunnel carries exactly what follows the handshake |
| `Credentials.DecodeInvertsEncode` | internal/proxy/http_proxy.go:169-172 | decoding an encoded byte string gives it back |
| `Credentials.AlphabetIsStandard` | internal/proxy/http_proxy.go:169-172 | letters and digits are those of the standard alphabet, in its order |
| `Credentials.DecodesExactly` | internal/proxy/http_proxy.go:169-172 | a text decodes to exactly the bytes whose encoding it is once the bits left over by its padding are cleared |
| `Credentials.BreakIsSkipped` | internal/proxy/http_proxy.go:169-172 | a line break in the text makes no difference |
| `Credentials.AcceptedExactly` | internal/proxy/http_proxy.go:158-179 | any header text is accepted exactly if trimmed it is the word Basic in any case, a space, and a rest that decodes to the user, a colon and the password |
| `Credentials.OthersAreNotAccepted` | internal/proxy/http_proxy.go:159-167 | a blank header, one of a single word and one of another scheme are not accepted |
| `Credentials.HeaderAccepted` | internal/proxy/http_proxy.go:158-179 | in particular a header that carries a pair is accepted exactly if the pairs joined by a colon are equal |
| `Credentials.SocksAccepts` | internal/proxy/socks5_server.go:60-64 | SOCKS5 accepts exactly the configured user and password |
| `Credentials.HttpAcceptsMore` | internal/proxy/http_proxy.go:174-178 | whatever SOCKS5 accepts, HTTP accepts |
| `Credentials.AgreeOnEveryPair` | internal/proxy/http_proxy.go:174-178 | with colon-free user names the front ends agree on every pair if and only if the configured user has no colon and both fields fit into 255 bytes |
| `Credentials.AgreeOnAnyPair` | internal/proxy/http_proxy.go:174-178 | with any user names the configured password must have no colon either |
| `HttpProxy.HandleHTTP` | internal/proxy/http_proxy.go:18-156 | requests are answered in order up to the first that does not go on, each as its header, method, host and the exit call for |
| `HttpProxy.HandleRequest` | internal/proxy/http_proxy.go:26-155 | refused without the credentials; told so without an exit; otherwise dialled once through the exit, to the normalised host with port 443 or 80 as default or to an HTTP upstream itself, and told how that went |
| `HttpProxy.NoDialWithoutCredentials` | internal/proxy/http_proxy.go:26-155 | in every run a request is refused exactly if it does not carry the credentials, dialled for at most once and only with them, only towards the pinned exit, and nothing follows a refusal, a failure or a tunnel |
| `HttpProxy.StrangersAreRefused` | internal/proxy/http_proxy.go:26-29 | a request whose header is missing, blank, a single word or of another scheme gets one refusal, is not dialled for and ends the connection |
| `HttpProxy.DialsWhatIsAsked` | internal/proxy/http_proxy.go:33-66 | a host written in any usual way is dialled as exactly that host and port, or the default port |
| `Server.HandleConn` | internal/proxy/server.go:57-84 | peeking loses nothing, the first byte chooses the handler, and whatever is dialled goes through the proxy that was the exit when the connection was accepted, with its own protocol, host and port, while rotation and settings updates go on |
| `Settings.NormalizeIdempotent` | internal/config/settings.go:55-62 | normalising twice is normalising once, and does not change the verdict |
| `Settings.ValidateExactly` | internal/config/settings.go:64-111 | accepts exactly settings with a known protocol and country in any case and spacing, limits in range, an http(s) test URL and non-blank proxy credentials |
| `Settings.ComplaintsAreTrue` | internal/config/settings.go:64-111 | every complaint names a field that is wrong |
| `Settings.CountryMatchesExactly` | internal/config/settings.go:53-53 | the country pattern is `all` or two letters, in either case |
| `Settings.PatchKeepsSecrets` | internal/config/settings.go:151-211 | no patch can blank a secret that is set, so none is refused for missing credentials |
| `Settings.PatchIsExact` | internal/config/settings.go:151-211 | field by field: a patched record has the value given, normalised for protocol and country, trimmed for the admin user and only if not blank for secrets, and otherwise its own |
| `Settings.BlankAdminFollowsProxy` | internal/config/manager.go:90-99 | a blank admin user in a patch makes the admin login follow the proxy login, and another sets its own |
| `Settings.ValidIsPositive` | internal/config/settings.go:91-103 | valid settings have a positive concurrency, hold and timeout |
| `Settings.ClampsNeverFire` | cmd/scdn-io-proxy/main.go:116-122 | for positive settings the limit is as configured, and hold and timeout are exactly if they are at most 9,223,372,036 seconds |
| `Settings.FallbacksAre` | internal/pool/fetcher.go:120-128 | values below one fall back to a hold of one second, a timeout of five seconds and one test at a time |
| `Settings.MinuteNeverUsed` | internal/proxy/rotator.go:43-45 | the rotator's own fallback never replaces a hold made from settings; the product the admin server passes is used as configured exactly up to that bound |
| `Settings.HoldOverflows` | cmd/scdn-io-proxy/main.go:116-122 | one second more gives a negative product and a hold of one second |
| `SettingsManager.HappenKeeps` | internal/config/manager.go:20-88 | every start, update, failure and stop keeps what is published normalised, valid and equal to what the row decodes to |
| `SettingsManager.PlayKeeps` | internal/config/manager.go:20-88 | so does every sequence of them, from any row |
| `SettingsManager.RestartRestores` | internal/config/manager.go:20-56 | after any run, stopping and starting with any valid initial settings publishes the same again and writes nothing |
| `SettingsManager.OnlyAcceptedUpdatesCount` | internal/config/manager.go:69-88 | the row always decodes to the replay of the accepted patches: failed updates, failed starts and restarts leave no trace |
| `SettingsManager.LastWriterWins` | internal/config/settings.go:151-211 | replaying patches gives each field what the last patch naming it says, or its value at the start |
| `SettingsManager.LastGivenIsLast` | internal/config/settings.go:151-211 | the last value given is that of a patch after which none gives the field |
| `SettingsManager.LastAcceptedPatchWins` | internal/config/manager.go:69-88 | after any run each published and stored field is what the last accepted patch naming it gave, or its value at the start |
| `SettingsManager.PublishedNeverClamped` | internal/pool/fetcher.go:120-128 | so no published setting below the overflow bound is ever replaced by a fallback |
| `SettingsManager.Manager.Update` | internal/config/manager.go:69-88 | an accepted update publishes and stores the settings with each field the patch gives, and no other, changed; otherwise neither row nor published settings change |
| `SettingsManager.NewManager` | internal/config/manager.go:20-56 | publishes the stored settings, or the initial ones after storing them, or fails |
| `AdminServer.PagesPartition` | internal/admin/server.go:183-191 | pages 1 to the last concatenate to the whole list |
| `AdminServer.PagesAreFilled` | internal/admin/server.go:183-191 | each of them has rows on it, and all but the last are full |
| `AdminServer.EveryRequestHitsAPage` | internal/admin/server.go:157-190 | any requested page and size text gives a size of 10, 50 or 100 and a page in range whose offset lies inside the list |
| `AdminServer.HandleProxies` | internal/admin/server.go:154-215 | shows the page asked for, the last one if that is too far and the first for anything but a positive number, with the rows of that page of the pool as it is when listed, item by item |
| `AdminServer.HandleProxiesDelete` | internal/admin/server.go:217-268 | refuses none or more than 5000 ids; leaves exactly the rows not listed; rotates exactly if the exit was listed; afterwards the exit is none of them |
| `AdminServer.Listed` | internal/admin/server.go:254-261 | finds an id exactly if it was sent |

## Left out

- `Socks5Server.HandleSocks5`: writes to the client always succeed, because the source ignores their errors and goes on.
- `Server.HandleConn`: the requests of the HTTP branch are given as parsed records, because reading them is `net/http`'s work.
- `Tunnel.BiCopy`: the tunnel's connections are records of what is buffered, will arrive and was given, not `Wire.BufferedConn` objects.
- `ProxyStore.Store.UpsertUsableProxy`: the counter of ids is an unbounded integer; exhausting 64 bits is not modelled.
- `SettingsManager.NewManager`: the settings text is either the exact encoding of some settings or unreadable; JSON itself is not modelled.
- `Settings.ValidateExactly`: whether a URL parses, and to which scheme, is a parameter.
- `Socks5Server.DestTextKeepsDest`: the rendering of IPv6 addresses is a parameter.
- Text is ASCII: Unicode blanks and case folding are not modelled.
- Constant-time comparison is equality; its timing is not modelled.
- Sockets, TLS, dialling, the upstream test and the fetch of the list are inputs that succeed or fail.
- Header rewriting and body forwarding of plain HTTP requests depend on `net/http`.
- SQL text, pragmas and migrations: the table's meaning is modelled, not the statements that make it.
- The admin server's settings and status pages, and the manual rotate action, are not modelled.
- Logging, flags, static files and signal handling have no property worth stating.
