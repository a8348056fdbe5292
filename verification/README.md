# BF2Statistics control center: request dispatch, listener accounting, unlock selection

This project is a Dafny model of four pieces of the BF2Statistics control center, with proofs of their properties.

- **The stats web server's request dispatch** (`HttpServer.ProcessRequest`, `DoASPResponse`, `DoStatsResponse`). It covers:
  - the 503 gate, then the 405 gate;
  - the fourteen-entry table of legacy ASP handlers;
  - the browser-site routing with static resources and their MIME types;
  - the conversion of handler faults to 500;
  - the send-exactly-once finalisation;
  - the fate of the per-request store handle.
- **The Gamespy TCP listener's resource accounting** (`GamespyTcpSocket`), as a state machine. Each asynchronous completion is one atomic step. The state is:
  - the admission semaphore;
  - the accept-args pool;
  - the read/write-args pool bound to the buffer arena;
  - the streams handed to the protocol layer.
- **The `selectunlock.aspx` handler**, as a function from query parameters and an abstract store to a new store and the ordered response lines.
- **The two extension helpers**: the Fisher–Yates `Shuffle`, driven by an oracle for the random draws, and `StringExtensions.Repeat`.

Modules:

- `common.dfy`, module `Common`: `Option`, `Result`, and the 32-bit wrap-around of C# unchecked `int` arithmetic (`Wrap32`).
- `text.dfy`, module `Text`: the .NET string operations the request path and query parameters go through. These are `ToLower`, `Trim`, ordinal `Replace`, and `Int32.TryParse`/`int.Parse` with the `ToString` round trip.
- `http_server.dfy`, module `HttpServer`: dispatch.
- `tcp_socket.dfy`, module `TcpSocket`: the listener state machine and its accounting invariant.
- `select_unlock.dfy`, module `SelectUnlock`: the unlock handler.
- `extensions.dfy`, module `Extensions`: `Shuffle` and `Repeat`.

In `PrepareAccept`, the failed hand-off path releases the semaphore permit the accept was admitted with (GamespyTcpSocket.cs:329). The reject path (GamespyTcpSocket.cs:276-286) does not. It also pushes the accept arg back with its closed `AcceptSocket` still set, where the success path clears it (GamespyTcpSocket.cs:300). The restarted accept pops that same arg and `AcceptAsync` refuses it. `TcpSocket.CompleteAccept` follows the code as written, and the consequences are proved (see Findings).

## Model

| member | source | states |
|---|---|---|
| HttpServer.ProcessRequest | BF2Statistics/Web/HttpServer.cs:260-339 | Exactly one send on every path. 503 when the server is stopped or the store cannot be opened, before the method check. The store handle is never opened on the 503 path, is left undisposed exactly on the 405 path, and is disposed exactly when the method is accepted. A 405 status comes only from the method check or from a handler that set it. A handler is reached exactly when the request is ASP and its name routes. Pages and files are reached only for site requests with the site enabled. The store handle is given to the routed code exactly for a page or for a handler other than backend-info. A Content-Type is set only for an existing static file. |
| HttpServer.AspResponse | BF2Statistics/Web/HttpServer.cs:341-392 | A legacy request reaches the handler its name routes to, and keeps the status and the fault the handler left. Every handler but backend-info is given the store handle. An unknown name gets 404 with one send and no handler. |
| HttpServer.StatsResponse | BF2Statistics/Web/HttpServer.cs:394-456 | A site request never reaches an ASP handler. Only a page is given the store handle. A Content-Type is set only for an existing static file, including one whose read then fails. Every document with neither a page nor an existing file is 404 with one send. |
| HttpServer.AspRoute | BF2Statistics/Web/HttpServer.cs:343-391 | A name routes to a handler registered under that name, and to none exactly when no handler has that name. |
| HttpServer.AspRouteRoundTrip | BF2Statistics/Web/HttpServer.cs:343-386 | Every handler's own name routes back to it, so no case of the switch is shadowed. Every name is plain: lower-case ASCII letters, digits and dots. |
| HttpServer.FileNameInjective | BF2Statistics/Web/HttpServer.cs:343-386 | The fourteen case names are pairwise distinct. |
| HttpServer.StatsRoute | BF2Statistics/Web/HttpServer.cs:422-454 | An extensionless document routes to a page served at it, and to none exactly when no page is. |
| HttpServer.Extension | BF2Statistics/Web/HttpServer.cs:400-407 | `Path.HasExtension` holds exactly when a '.' that is not last is followed by no '.' and no separator ('/', '\\', ':'). The extension is the text after that dot, without the dot. |
| HttpServer.Document | BF2Statistics/Web/HttpServer.cs:300 | The requested document is no longer than the URL path and holds no upper-case ASCII letter. `HandlerPathIsDocument` and `DocumentFoldsAspPrefix` say which paths it maps to which documents. |
| HttpServer.AspName | BF2Statistics/Web/HttpServer.cs:343 | Removing every "/asp/" never lengthens the document. `ReplaceAllSplits` gives the exact result and `AspRouting` the names that reach a handler. |
| HttpServer.StatsDocument | BF2Statistics/Web/HttpServer.cs:397 | The site document is no longer than the request's document and neither starts nor ends with '/'. `HomeDocuments` shows the two spellings of the home page. |
| HttpServer.UnavailableBeforeMethod | BF2Statistics/Web/HttpServer.cs:268-294 | A stopped server answers 503 and routes nothing, whatever the method. |
| HttpServer.MethodCaseSensitive | BF2Statistics/Web/HttpServer.cs:46 | The allow-list comparison is ordinal: "get" and "PUT" are refused with 405. |
| HttpServer.SiteDisabled | BF2Statistics/Web/HttpServer.cs:305-318 | A site request with the site disabled is 503 with one send, no page, and the store disposed. |
| HttpServer.DocumentFoldsAspPrefix | BF2Statistics/Web/HttpServer.cs:300 | Lower-casing makes "/ASP/x" and "/asp/x" the same document. |
| HttpServer.AspRouting | BF2Statistics/Web/HttpServer.cs:343-386 | "/asp/" followed by a handler's name reaches that handler. |
| HttpServer.HandlerPathIsDocument | BF2Statistics/Web/HttpServer.cs:300 | A handler's request path is already lower-case and trimmed, so it is its own document. |
| HttpServer.OnlyBackendInfoSkipsStore | BF2Statistics/Web/HttpServer.cs:341-386 | A request for "/asp/" followed by a handler's name reaches that handler and disposes the store afterwards. The handler is given the store handle exactly when it is not the backend-info handler. |
| HttpServer.UnknownAspName | BF2Statistics/Web/HttpServer.cs:387-390 | A legacy name no handler has is answered 404 with no handler. |
| HttpServer.HandlerFaults | BF2Statistics/Web/HttpServer.cs:320-335 | A handler fault becomes 500 exactly when nothing was sent yet. Otherwise the status the handler left stands. Either way there is exactly one send. |
| HttpServer.StaticResource | BF2Statistics/Web/HttpServer.cs:400-418 | An existing file is served with 200 and the table's Content-Type for its extension, or none if the extension is unknown. A missing file is 404. |
| HttpServer.MimeTable | BF2Statistics/Web/HttpServer.cs:77-88 | The table knows exactly the nine listed extensions. "htm" and "html" share the HTML type, and "jpg" and "jpeg" share the JPEG type. |
| HttpServer.StatsRouteComplete | BF2Statistics/Web/HttpServer.cs:422-449 | Each page is reached from every document it is served at. |
| HttpServer.SiteDispatch | BF2Statistics/Web/HttpServer.cs:420-454 | An extensionless document with a page gets that page with status 200. One without a page gets no page and 404. |
| HttpServer.SiteRouting | BF2Statistics/Web/HttpServer.cs:420-455 | An extensionless document reaches exactly the page served at it, and is 404 exactly when no page is. |
| HttpServer.HomeDocuments | BF2Statistics/Web/HttpServer.cs:397 | "/bf2stats" and "/bf2stats/" become the home document "". "/bf2stats/home" becomes "home". |
| Text.Lower | BF2Statistics/Web/HttpServer.cs:300 | Lower-casing keeps the length, leaves no upper-case ASCII letter, and leaves text without one unchanged. |
| Text.LowerShape | BF2Statistics/Web/HttpServer.cs:300 | Lower-casing keeps length, distributes over concatenation and is idempotent. |
| Text.Trim | BF2Statistics/Web/HttpServer.cs:300 | The trimmed text is the slice after the droppable prefix. It is followed only by droppable characters and neither starts nor ends with one. |
| Text.TrimKeepsUntrimmed | BF2Statistics/Web/HttpServer.cs:397 | Text that neither starts nor ends with a droppable character is unchanged. |
| Text.ReplaceAll | BF2Statistics/Web/HttpServer.cs:397 | Replacing by text no longer than the pattern never lengthens the text, and replacing the pattern by itself changes nothing. `ReplaceAllSplits` characterizes the result for every input. |
| Text.ReplaceAbsent | BF2Statistics/Web/HttpServer.cs:343 | Replacing a pattern whose first character does not occur changes nothing. |
| Text.ReplaceLeading | BF2Statistics/Web/HttpServer.cs:397 | A leading occurrence is replaced and the scan resumes after it. |
| Text.ReplaceAllSplits | BF2Statistics/Web/HttpServer.cs:397 | For every text, the ordinal `Replace` result is the replacement joined over the parts between the leftmost non-overlapping occurrences of the pattern. |
| Text.ReplaceJoin | BF2Statistics/Web/HttpServer.cs:397 | Text that joins parts with the pattern, where no occurrence starts inside a part, is replaced into the same parts joined with the replacement. |
| Text.SkipsPrefix | BF2Statistics/Web/HttpServer.cs:397 | A prefix inside which no occurrence starts is copied unchanged. |
| Text.SplitOnJoins | BF2Statistics/Web/HttpServer.cs:397 | The split at the leftmost occurrences joins back, with the pattern, to the text. |
| Text.SplitOnLeftmost | BF2Statistics/Web/HttpServer.cs:397 | In that split, no occurrence of the pattern starts inside a part. |
| Text.ParseInt32 | BF2Statistics/Web/ASP/Pages/SelectUnlock.cs:28-29 | A parsed value always fits in 32 bits. `ParseIntegerText` and `ParsedIsIntegerText` say, in both directions, which texts parse and to what. |
| Text.ParseIntegerText | BF2Statistics/Web/ASP/Pages/SelectUnlock.cs:28 | Text made of white space, an optional sign, one or more digits and white space parses to its signed value when that fits in 32 bits, and fails otherwise. |
| Text.ParsedIsIntegerText | BF2Statistics/Web/ASP/Pages/SelectUnlock.cs:28 | Conversely, a successful parse comes only from text of that shape, and yields its signed value. |
| Text.TrimPadded | BF2Statistics/Web/HttpServer.cs:300 | Trimming removes exactly the droppable padding around a piece that neither starts nor ends with a droppable character. |
| Text.ParseShowInt | BF2Statistics/Web/ASP/Pages/SelectUnlock.cs:58-59 | The decimal text of an integer parses back to it exactly when it fits in 32 bits, and fails otherwise. |
| Common.Wrap32 | BF2Statistics/Web/ASP/Pages/SelectUnlock.cs:58-59 | Unchecked `int` arithmetic yields the 32-bit value congruent to the exact result modulo 2^32. It is the identity on 32-bit values. |
| Common.WrapAtEnds | BF2Statistics/Web/ASP/Pages/SelectUnlock.cs:58-59 | MaxValue + 1 wraps to MinValue, and MinValue - 1 wraps to MaxValue. |
| TcpSocket.Construct | BF2Statistics/Net/GamespyTcpSocket.cs:98-133 | A bound <= 0 is refused by the semaphore. Otherwise: a full semaphore; four socketless accept args; no waiting, in-flight or active accepts; listening and not ignoring. When `2 * M` and `256 * M * 2` fit in an `int`, the pool holds `2 * M` read/write args and the arena is `256 * M * 2` bytes. |
| TcpSocket.ObtainAcceptArg | BF2Statistics/Net/GamespyTcpSocket.cs:219-238 | The top of a non-empty accept pool is popped. An empty pool yields a fresh arg. |
| TcpSocket.BeginAccept | BF2Statistics/Net/GamespyTcpSocket.cs:246-265 | On an open listener an arg without a socket goes in flight. On a closed listener, or with an arg that still holds a closed socket, the call throws, the exception is caught, and the arg and the permit are lost with nothing else changed. |
| TcpSocket.AwaitPermit | BF2Statistics/Net/GamespyTcpSocket.cs:240-257 | A free permit is taken at once. With none, the accept suspends. On the disposed semaphore the wait is swallowed and nothing changes. |
| TcpSocket.StartAccept | BF2Statistics/Net/GamespyTcpSocket.cs:217-266 | Only accept-side fields change. The semaphore's account never grows. While live, it drops by one exactly when a free permit meets a popped arg that still holds a closed socket, and that arg leaves circulation. A fresh arg enters circulation exactly when the pool was empty. Reusable args stay reusable. |
| TcpSocket.ReleasePermit | BF2Statistics/Net/GamespyTcpSocket.cs:211 | A release succeeds exactly when the semaphore is not disposed and below its maximum. Otherwise it throws and changes nothing. Only the waiting queue, the in-flight accepts and the free count ever change. |
| TcpSocket.ReleaseHandsOver | BF2Statistics/Net/GamespyTcpSocket.cs:211-257 | A release with no accept waiting frees the permit. With accepts waiting, the permit goes straight to the oldest one, which leaves the queue. On a listening socket, and if its arg holds no socket, it starts accepting. Nothing else changes. |
| TcpSocket.RejectAccept | BF2Statistics/Net/GamespyTcpSocket.cs:276-286 | The reject branch leaves the read/write pool, the streams and the open sockets alone, and the permit is not returned. The arg goes back with its closed socket, and the restarted accept pops it at once. With a free permit it is refused, losing that permit too, and nothing is armed. With none free it joins the back of the queue. |
| TcpSocket.CompleteAccept | BF2Statistics/Net/GamespyTcpSocket.cs:273-331 | The reject branch never throws. The success branch throws `PoolExhausted` exactly when fewer than two read/write args are pooled. The listening and disposed flags never change. `CompleteAcceptKeeps`, `RejectStrandsPermit` and `RejectedAccept` state the rest. |
| TcpSocket.AcceptSucceeded | BF2Statistics/Net/GamespyTcpSocket.cs:288-303 | Arming the next accept first does not change whether the pops find two read/write args. With two, the new socket stays open exactly when the hand-off succeeded. |
| TcpSocket.HandOff | BF2Statistics/Net/GamespyTcpSocket.cs:291-330 | `PoolExhausted` exactly when fewer than two args are pooled. Otherwise the accept arg goes back cleared and the socket stays open exactly when the hand-off succeeds. A success adds a stream holding the top two args. A failure keeps the streams and the pool's contents. |
| TcpSocket.Release | BF2Statistics/Net/GamespyTcpSocket.cs:194-212 | The stream's socket is closed. With disposed args it throws before returning anything. Otherwise both args go back, the stream leaves, and one permit is released. |
| TcpSocket.Shutdown | BF2Statistics/Net/GamespyTcpSocket.cs:173-187 | Afterwards the listener is not listening, and nothing else changes. |
| TcpSocket.Dispose | BF2Statistics/Net/GamespyTcpSocket.cs:145-167 | Happens once. The listener is disposed and shut down, and both pools are emptied. A second call changes nothing. |
| TcpSocket.ConstructEstablishes | BF2Statistics/Net/GamespyTcpSocket.cs:98-133 | A constructed listener satisfies the accounting invariant. |
| TcpSocket.PoolSize | BF2Statistics/Net/GamespyTcpSocket.cs:122-127 | Under the invariant, pooled args plus two per stream is `2 * M`. |
| TcpSocket.ReleasePermitKeeps | BF2Statistics/Net/GamespyTcpSocket.cs:211 | With room in the account, a release keeps the invariant, never over-releases, leaves the pool and the streams alone, and keeps the accept args reusable. While live and with reusable args, it restores one permit to the account and keeps every accept arg. |
| TcpSocket.StartAcceptKeeps | BF2Statistics/Net/GamespyTcpSocket.cs:217-266 | Starting an accept keeps the invariant. |
| TcpSocket.DetachKeeps | BF2Statistics/Net/GamespyTcpSocket.cs:273 | A completing accept leaves flight, and the account drops by one. |
| TcpSocket.HandOffOkKeeps | BF2Statistics/Net/GamespyTcpSocket.cs:291-310 | A successful hand-off moves two args from the pool to a new stream. It keeps the invariant and raises nothing. |
| TcpSocket.HandOffFailedKeeps | BF2Statistics/Net/GamespyTcpSocket.cs:312-330 | A failed hand-off returns both args, closes the socket, adds no stream and releases the permit, keeping the invariant. |
| TcpSocket.AcceptSucceededKeeps | BF2Statistics/Net/GamespyTcpSocket.cs:288-331 | The success branch keeps the invariant, never over-releases, and never pops an empty pool before disposal. While live and with reusable args, it restores the completing accept's permit to the account. |
| TcpSocket.AcceptSucceededArgs | BF2Statistics/Net/GamespyTcpSocket.cs:288-303 | The success branch returns its arg with the socket cleared, so reusable args stay reusable. While live it returns one arg more than it took. |
| TcpSocket.RejectAcceptKeeps | BF2Statistics/Net/GamespyTcpSocket.cs:276-286 | The reject branch keeps the invariant and never raises the account. |
| TcpSocket.CompleteAcceptKeeps | BF2Statistics/Net/GamespyTcpSocket.cs:273-331 | Completing an accept keeps the invariant, never over-releases, never pops an empty pool before disposal, and never raises the account. |
| TcpSocket.ReleaseKeeps | BF2Statistics/Net/GamespyTcpSocket.cs:194-212 | Releasing a stream keeps the invariant and never over-releases. |
| TcpSocket.Next | BF2Statistics/Net/GamespyTcpSocket.cs:145-331 | Only a completed accept or a stream release can throw, and a rejected accept never does. `StepKeeps` and `PermitAccountNeverGrows` state what every step preserves. |
| TcpSocket.StepKeeps | BF2Statistics/Net/GamespyTcpSocket.cs:145-331 | Every step keeps the invariant and the bound. No step releases beyond the semaphore's maximum. No step pops an empty read/write pool before disposal. |
| TcpSocket.RunKeeps | BF2Statistics/Net/GamespyTcpSocket.cs:145-331 | Any sequence of steps keeps the invariant and the bound. |
| TcpSocket.StepQueues | BF2Statistics/Net/GamespyTcpSocket.cs:211-257 | No step frees a permit while an accept waits, so a new accept never overtakes a suspended one. |
| TcpSocket.RunQueues | BF2Statistics/Net/GamespyTcpSocket.cs:145-331 | Any sequence of steps keeps that queue discipline. |
| TcpSocket.Reachable | BF2Statistics/Net/GamespyTcpSocket.cs:98-331 | From construction, at most `M` permits are ever out, and no permit is free while an accept waits. Before disposal, pooled args plus two per stream is exactly `2 * M`. |
| TcpSocket.SuccessConservesPermits | BF2Statistics/Net/GamespyTcpSocket.cs:273-331 | While live and with reusable accept args, a successful completion passes its permit on to the new stream, or back to the semaphore when the hand-off fails. The account does not change. |
| TcpSocket.PermitsConserved | BF2Statistics/Net/GamespyTcpSocket.cs:194-331 | While live and with every accept arg reusable, starting an accept, a successful accept (with a working or a failed hand-off) and a release all keep the semaphore's account. |
| TcpSocket.RejectStrandsPermit | BF2Statistics/Net/GamespyTcpSocket.cs:276-286 | A rejected accept on a live listener lowers the account by one. It lowers it by two when a permit is free, because the restarted accept is refused. |
| TcpSocket.PermitAccountNeverGrows | BF2Statistics/Net/GamespyTcpSocket.cs:194-331 | No step raises the semaphore's account. |
| TcpSocket.RejectWedgesSingleConnectionListener | BF2Statistics/Net/GamespyTcpSocket.cs:276-286 | With one connection allowed, a first accept that fails leaves no free permit, nothing in flight and the next accept suspended. |
| TcpSocket.StarvedStaysStarved | BF2Statistics/Net/GamespyTcpSocket.cs:217-331 | A listener with no free permit, nothing in flight and no stream stays so under every sequence of steps. |
| TcpSocket.IdleStaysIdle | BF2Statistics/Net/GamespyTcpSocket.cs:217-331 | A listener with nothing in flight and no stream stays so under every sequence of steps that starts no new accept. |
| TcpSocket.RejectStopsAccepting | BF2Statistics/Net/GamespyTcpSocket.cs:276-286 | For every connection bound, when the first accept completes with an error, nothing is left in flight or active. Unless a new accept is started from outside, none ever is again. |
| TcpSocket.SingleConnectionListenerNeverRecovers | BF2Statistics/Net/GamespyTcpSocket.cs:276-286 | After the failed first accept, the one-connection listener never accepts a connection again, whatever happens next. |
| TcpSocket.RejectReleasingPermit | BF2Statistics/Net/GamespyTcpSocket.cs:276-286 | The corrected reject branch: the same clean-up, with the arg's socket cleared and the permit released. The release raises nothing exactly when the semaphore is live and below its maximum. |
| TcpSocket.ReleasingConservesPermits | BF2Statistics/Net/GamespyTcpSocket.cs:273-331 | With the corrected reject branch and reusable accept args, every completion raises nothing, keeps the invariant and keeps the account exactly. The args stay reusable and none is lost. |
| TcpSocket.SuccessfulAccept | BF2Statistics/Net/GamespyTcpSocket.cs:288-310 | The next accept is armed before the arg is returned, so an empty pool forces a fresh arg. The returned arg has no socket. The new stream holds the top two pooled args and the new, open socket. |
| TcpSocket.FailedHandoffUnwinds | BF2Statistics/Net/GamespyTcpSocket.cs:312-330 | With reusable accept args, a failed hand-off closes the socket, leaves the pool's contents and the streams as they were, and keeps the account. |
| TcpSocket.RejectedAccept | BF2Statistics/Net/GamespyTcpSocket.cs:276-286 | On a live listener, whatever its state, a rejection raises nothing and leaves the pools, the streams and the sockets alone. The completing accept leaves flight and no accept replaces it. With a free permit, the arg is lost with one more permit. With none, the arg, still holding its closed socket, joins the back of the queue. |
| TcpSocket.AcceptArgsNeverShrink | BF2Statistics/Net/GamespyTcpSocket.cs:194-331 | While live and with every accept arg reusable, each step except a rejected accept and disposal keeps every circulating accept arg and keeps them reusable. The pool grows only by a fresh arg when a start finds it empty. |
| TcpSocket.RunKeepsAcceptArgs | BF2Statistics/Net/GamespyTcpSocket.cs:194-331 | Over any sequence of steps that neither rejects connections nor stops the listener, no accept arg is lost, all stay reusable, and the listener stays live. |
| TcpSocket.ShutdownDisposeIdempotent | BF2Statistics/Net/GamespyTcpSocket.cs:145-187 | Shutdown and disposal are idempotent. |
| SelectUnlock.QueryInt | BF2Statistics/Web/ASP/Pages/SelectUnlock.cs:21-30 | A parameter reads as a 32-bit value, and as 0 when absent. |
| SelectUnlock.ErrorLines | BF2Statistics/Web/ASP/Pages/SelectUnlock.cs:35-38 | An error response is a failed start, a header, a data line, then the send. |
| SelectUnlock.OkLines | BF2Statistics/Web/ASP/Pages/SelectUnlock.cs:64-67 | A success response is a successful start, a header, a data line, then the send. |
| SelectUnlock.MarkSelected | BF2Statistics/Web/ASP/Pages/SelectUnlock.cs:54 | Only the row keyed (pid, kit) changes, to 's', and only if it exists. No row is added or removed. |
| SelectUnlock.ParseColumn | BF2Statistics/Web/ASP/Pages/SelectUnlock.cs:58-59 | No contract of its own. `ParseColumnReadsText` shows it is `int.Parse` of the value's decimal text: the value back when it fits in 32 bits, a throw otherwise. |
| SelectUnlock.ParseColumnReadsText | BF2Statistics/Web/ASP/Pages/SelectUnlock.cs:58-59 | Parsing a column's decimal text gives the value back exactly when it fits in 32 bits, and fails otherwise. |
| SelectUnlock.Handle | BF2Statistics/Web/ASP/Pages/SelectUnlock.cs:19-68 | A throw writes no lines. A completed request writes one of the three four-line responses. The store changes only for non-zero ids of an existing player. No row is ever added or removed. An OK response means the player exists. |
| SelectUnlock.Select | BF2Statistics/Web/ASP/Pages/SelectUnlock.cs:53-67 | The unlock is marked first. The handler throws exactly when a counter is outside 32 bits, and then the players are unchanged. Otherwise the player's available count becomes `avail - 1` and the used count `used + 1`, both with 32-bit wrap-around. Other players are untouched. |
| SelectUnlock.ResponseShape | BF2Statistics/Web/ASP/Pages/SelectUnlock.cs:33-67 | Each of the three responses the handler can write is start, header, data, then exactly one send at the end. The start line is successful exactly for the OK response. |
| SelectUnlock.InvalidSyntax | BF2Statistics/Web/ASP/Pages/SelectUnlock.cs:21-40 | A missing or unparsable parameter gives "Invalid Syntax!" and leaves the store unchanged. |
| SelectUnlock.ZeroIsInvalid | BF2Statistics/Web/ASP/Pages/SelectUnlock.cs:33-40 | A zero pid or id gives "Invalid Syntax!" and leaves the store unchanged. |
| SelectUnlock.NonZeroIdsPass | BF2Statistics/Web/ASP/Pages/SelectUnlock.cs:27-33 | Every non-zero 32-bit pair, negatives included, reads back exactly and passes the syntax check. |
| SelectUnlock.QueryReadsBack | BF2Statistics/Web/ASP/Pages/SelectUnlock.cs:26-30 | The two ids a client writes in the query are read back exactly. |
| SelectUnlock.UnknownPlayer | BF2Statistics/Web/ASP/Pages/SelectUnlock.cs:43-51 | An unknown player gives "Player Doesnt Exist" and leaves the store unchanged. |
| SelectUnlock.Selection | BF2Statistics/Web/ASP/Pages/SelectUnlock.cs:53-67 | On success: OK; exactly the (pid, id) unlock is marked; available drops by one and used rises by one; other players are untouched. |
| SelectUnlock.AvailableMayGoNegative | BF2Statistics/Web/ASP/Pages/SelectUnlock.cs:58 | A player with no available unlocks still selects, and the count becomes -1. |
| SelectUnlock.TotalKept | BF2Statistics/Web/ASP/Pages/SelectUnlock.cs:57-61 | Without wrap-around, available plus used is conserved. |
| SelectUnlock.UsedCountWraps | BF2Statistics/Web/ASP/Pages/SelectUnlock.cs:59 | A used count of Int32.MaxValue wraps to Int32.MinValue. |
| SelectUnlock.AvailableCountWraps | BF2Statistics/Web/ASP/Pages/SelectUnlock.cs:58 | An available count of Int32.MinValue wraps to Int32.MaxValue. |
| SelectUnlock.OversizedCounterThrows | BF2Statistics/Web/ASP/Pages/SelectUnlock.cs:54-59 | A counter beyond 32 bits throws after the unlock was already marked. No line is written and the counters stay. |
| Extensions.Swap | BF2Statistics/Extensions/Extensions.cs:18-20 | The two positions exchange their elements, and every other position is kept. |
| Extensions.SwapPermutes | BF2Statistics/Extensions/Extensions.cs:18-20 | A swap keeps the multiset, and swapping twice restores the sequence. |
| Extensions.ShufflePermutes | BF2Statistics/Extensions/Extensions.cs:12-22 | The shuffle keeps the length and the multiset. |
| Extensions.SettledUntouched | BF2Statistics/Extensions/Extensions.cs:15-21 | Positions at or above the current `n` are never touched by the remaining steps. |
| Extensions.UnshuffleRestores | BF2Statistics/Extensions/Extensions.cs:15-21 | Undoing the swaps in reverse order with the same draws restores the input. |
| Extensions.Shuffle | BF2Statistics/Extensions/Extensions.cs:12-22 | The result is a permutation of the input and equals the step-by-step reference. Length 0 or 1 is unchanged. Undoing the swaps restores the input. |
| Extensions.RepeatSpecLength | BF2Statistics/Extensions/Extensions.cs:31-34 | `count` copies have length `|input| * count`. |
| Extensions.RepeatSpecIndex | BF2Statistics/Extensions/Extensions.cs:31-34 | Character `i` of the repetition is `input[i % |input|]`. |
| Extensions.RepeatSpecAdd | BF2Statistics/Extensions/Extensions.cs:31-34 | `a + b` copies are `a` copies followed by `b` copies. |
| Extensions.Repeat | BF2Statistics/Extensions/Extensions.cs:27-35 | It throws exactly when the wrapped capacity `length * count` is negative, or when the result would exceed Int32.MaxValue characters. Otherwise it returns `count` copies. A null input or `count == 0` gives "". A negative count with non-empty input throws unless the product wraps. |

## Left out

- HttpListener plumbing is not modelled: start and stop, the accept loop, events, logging, and the `SessionRequests` counter. The `IsRunning` getter's re-creation of a disposed listener is reduced to a `running` flag.
- `ToLower` is modelled as the invariant ASCII mapping only: 'A' to 'Z' become 'a' to 'z', and every other character is unchanged. The source calls the culture-sensitive `ToLower()`. Culture-specific mappings, such as a Turkish culture lower-casing 'I' to 'ı', and the lower-casing of non-ASCII letters are not modelled.
- `Path.HasExtension`'s exception on invalid path characters is not modelled. Such a path would end in a 500.
- The disk path (`Path.Combine` of the root, "Web", "Bf2Stats", "Resources" and the split document) is not built. File existence is a predicate on the site document. The extension is taken from the document, whose last segment is the combined path's last segment.
- The legacy handlers and the page templates are black boxes. A handler returns or throws, having sent or not, and leaves a status code. Rendering a page or reading a file succeeds or fails before sending.
- HttpServer.StatsResponse: a rendered page and a sent static file are taken to leave the default status 200. The page classes are not part of this model.
- `Response.Send` is taken never to throw.
- HttpServer.ProcessRequest: the `RequestRecieved` event is raised before the 503 gate, outside any try and without a null check (HttpServer.cs:265). It is taken to have a subscriber that does not throw. With no subscriber, or one that throws, the request would end with no send, and the exactly-one-send ensures would not hold.
- Sockets, binding, socket options and the byte contents of the buffer arena are not modelled. `BufferManager` is not part of this model; only the arena size is computed.
- `SocketAsyncEventArgsPool` is not part of this model. Its pools are modelled as LIFO stacks. A pop from an empty read/write pool is a fault, and it is proved impossible before disposal.
- The `Pop` try/catch in `StartAcceptAsync` is not modelled. Under the `Count > 0` check it only matters under a race.
- The generic catch in `StartAcceptAsync` is modelled only by its effect: the exception is dropped, along with the arg and the permit. The logging is not modelled.
- TcpSocket.BeginAccept: .NET's `Socket.AcceptAsync` is taken to throw at once for an accept arg whose `AcceptSocket` is still set to a closed socket. For a socket that was connected it refuses a bound `AcceptSocket`. For one that never connected, the closed handle fails. The .NET socket library is not part of this model. If `AcceptAsync` accepted such an arg, the reject path would lose only its permit.
- `GamespyTcpStream` is not part of this model. A stream is its socket and its two args. `DisposedEventArgs` is a step parameter.
- TcpSocket.Release: only a stream in the active list can be released. `Release` is protected and is called by the derived servers when a client's stream disconnects. Those servers and `GamespyTcpStream` are not part of this model. Each stream is taken to be released at most once, and a failed hand-off's stream never. A second release would push the stream's args again and release an extra permit. The accounting invariant rests on this.
- The abstract `ProcessAccept` is reduced to whether the hand-off throws.
- Concurrency is not modelled. Each completion is one atomic step, and interleavings inside a step are not modelled.
- The finalizer is left out. It only calls `Dispose`.
- TcpSocket.Construct: an arena size that wraps negative would make the buffer allocation throw. The allocation is not modelled because `BufferManager` is not part of this model.
- TcpSocket.Reachable: proved for `M <= 2^30 - 1` only. Above that, `M * 2` wraps and the constructor creates no read/write args at all.
- SelectUnlock: the SQL text and the database driver are abstracted into a store of player rows and unlock states. Driver errors are handled by the caller and are not modelled.
- SelectUnlock: the timestamp `DateTime.UtcNow.ToUnixTimestamp()` is a parameter. The byte encoding of the ASP response lines is not modelled.
- SelectUnlock.Selection: states the exact `-1`/`+1` only where no wrap-around occurs. `SelectUnlock.Select` states the wrapping arithmetic for every counter, and `UsedCountWraps` and `AvailableCountWraps` give the two edge cases.
- Text.ParseInt32: culture-specific sign symbols and the trailing NUL characters `TryParse` tolerates are not modelled.
- `Random.Next` is an oracle. Its answers are the `draws` sequence, constrained to `[0, n)`.
- Extensions.Shuffle: the source shuffles the caller's array in place. The model is functional and returns the shuffled sequence, which is what the array holds after the call.
- Extensions.Shuffle: a null array makes `array.Length` throw `NullReferenceException`. Null arrays are not modelled.
- Extensions.Repeat: running out of memory for a large but non-negative capacity is not modelled. Only the Int32.MaxValue length limit is.

## Findings

| source | as written | input that shows it | evidently intended | confidence | as-written member | corrected member |
|---|---|---|---|---|---|---|
| BF2Statistics/Net/GamespyTcpSocket.cs:276-286 | The reject branch of `PrepareAccept` closes the socket and returns the accept arg with that closed socket still in `AcceptSocket`, then starts a new accept. It never releases the semaphore permit taken at line 244. The new accept pops the same arg (LIFO), and `AcceptAsync` refuses it at line 247. That loses the arg and a second permit, or, with no permit free, leaves the arg waiting for a permit it will lose when one arrives. | A listener, for any `MaxConnections`, whose first accept completes with a socket error. Afterwards nothing is in flight or active, so no connection is ever accepted again. With `MaxConnections = 1`, no permit is free either, and the next accept waits forever. | Clear `AcceptSocket`, as the success path does at line 300, and release the permit before accepting again, as the failed hand-off path does at line 329. | not executed | TcpSocket.RejectStopsAccepting | TcpSocket.ReleasingConservesPermits |

The state machine's `Next` follows the code as written. `TcpSocket.CompleteAcceptReleasing` is the same step with the corrected reject branch (`TcpSocket.RejectReleasingPermit`). `TcpSocket.RejectStrandsPermit` proves the loss of one permit, or two when a permit is free, for every live listener. `TcpSocket.RejectedAccept` proves that the arg is lost or queued with its closed socket. `TcpSocket.RejectStopsAccepting` proves that, for every bound, nothing is in flight after the first rejection unless a new accept is started from outside. `TcpSocket.SingleConnectionListenerNeverRecovers` proves that the one-connection listener stays wedged whatever happens next. `TcpSocket.ReleasingConservesPermits` proves that the corrected step never loses a permit or an arg.
