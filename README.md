# protoservice: a verified model of the streaming engine and the file service

protoservice is a websocket server that accepts protobuf envelopes and routes each
one to the handler registered for its URI. On top of it sits a file service that
receives uploads in chunks. This project models the core of that program in Dafny
and proves properties of the model:

- **Connection** (`client.dfy`): a websocket client. It has a closed flag that only
  goes up, an idempotent close, the send guard as written (a send goes through only
  on a *closed* connection) and the read loop over a sequence of read results.
- **ClientPool** (`pool_clients_manager.dfy`): the bounded pool of clients, keyed by
  remote address. Admission is refused once `len + 1 >= size`, so at most `size - 1`
  clients are ever held.
- **Handlers** (`handlers_manager.dfy`): the URI → handler registry. The first
  registration of a URI wins and nothing is ever removed.
- **RateLimit** (`rate_limit_manager.dfy`): the per-address request counters. One
  tick of the one-second ticker queues every address at or above the limit for
  eviction and resets every other counter to 0.
- **Streaming** (`engine.dfy`): the engine. It admits connections (fill check,
  upgrade, push, counter), dispatches frames (count the hit, decode, resolve the
  URI, call the handler with the whole frame), closes connections and drains the
  eviction queue.
- **Sessions** and **SessionPool** (`session.dfy`, `pool_session_manager.dfy`):
  upload sessions keyed by UUID. Each has an append-only buffer that is written to a
  file system modelled as a map from path to bytes.
- **FileService** (`service.dfy`): the handshake and chunk handlers. Each call emits
  exactly one event on one of three channels.
- **FileServiceManager** (`file_service_manager.dfy`): which events make the manager
  close the sender's connection.

Stateful parts are classes whose methods modify their `map`/`seq` fields. Each
method's postcondition ties the new state to a pure function of the old state
(`Pushed`, `Deleted`, `Hit`, `Ticked`, `Written`, …), and the lemmas about those
functions carry the properties that involve more than one call.

Foreign calls are inputs to the model:

- the websocket upgrade is an `Upgrade` value;
- protobuf decoding is an `Option` of the decoded message;
- `uuid.New()` is a UUID argument;
- a failed websocket write is a `writeFails` flag;
- websocket reads are a sequence of `ReadResult`;
- `os.Create` and the buffered writer are a `FileStore` with a `DiskFault` input.

The model follows the code, including behaviour that looks unintended:

- A counter *equal* to the limit is evicted: the tick compares with `>=`, so exactly
  `limit` frames in one window lead to eviction (`RateLimit.EvictedIffLimitReached`).
- A pool of size N admits N − 1 clients: the fill check refuses a push once
  `len + 1 >= size` (`ClientPool.AdmitFillsToCapacity`).
- Chunk appends are not serialized per session. The model treats every handler
  call as atomic.

One exception is the session pool's push. As written it panics on every fresh
UUID (see "## Findings"). The model states that behaviour in
`SessionPool.PushedAsWritten`, and the file service uses the intended push, so
that the upload path can be modelled at all.

## Model

| member | source | states |
|---|---|---|
| Connection.ForwardedIsReadPrefix | protoservice/src/streaming/client.go:78-94 | the read loop forwards exactly the successful reads before the first failed one, each once and in read order |
| Connection.Client.constructor | protoservice/src/streaming/client.go:21-45 | a client built after a successful upgrade carries the connection's remote address, is open and has written nothing |
| Connection.Client.CloseConnection | protoservice/src/streaming/client.go:97-118 | afterwards the flag is set; the transport is closed only when the flag was down, so it is closed at most once; nothing is written |
| Connection.Client.SendMessage | protoservice/src/streaming/client.go:47-74 | on an open connection nothing is written and nil is returned (guard as written); on a closed one the message is written unless the write fails, in which case the write error is returned |
| Connection.Client.ReceiveMessage | protoservice/src/streaming/client.go:76-95 | returns at once with nothing forwarded if the flag is already set; otherwise forwards the reads up to the first failure; the client is closed on exit in every case |
| ClientPool.Pushed | protoservice/src/streaming/pool-clients-manager.go:37-51 | the fill check comes before the nil/empty-address check; a filled pool gives PoolClientIsFilled, a nil or address-less client gives ClientObjectIsNil, and both leave the pool unchanged; success files the client under its address, overwriting that entry and keeping all others; capacity and keying are preserved |
| ClientPool.Deleted | protoservice/src/streaming/pool-clients-manager.go:63-71 | an absent address gives ClientObjectIsNil and no change; a present one is removed and every other entry is kept |
| ClientPool.RunStaysBounded | protoservice/src/streaming/pool-clients-manager.go:30-71 | from any pool within capacity (the empty one in particular), any sequence of push and delete calls keeps at most max(size − 1, 0) clients, each filed under its own address |
| ClientPool.AdmitAt | protoservice/src/streaming/pool-clients-manager.go:30-51 | the i-th of distinct new clients pushed in turn is admitted exactly when the pool's size plus i is below size − 1; otherwise it is refused with PoolClientIsFilled |
| ClientPool.AdmitFillsToCapacity | protoservice/src/streaming/pool-clients-manager.go:30-51 | the same for all i at once: only the first size − 1 − len(pool) newcomers are admitted, and every refusal is PoolClientIsFilled |
| ClientPool.AdmitAfterDelete | protoservice/src/streaming/pool-clients-manager.go:30-71 | a pool holding size − 1 clients is filled, and after one delete a new well-formed client is admitted again |
| ClientPool.PoolClients.constructor | protoservice/src/streaming/pool-clients-manager.go:16-22 | a new pool is empty and has the given size |
| ClientPool.PoolClients.Length | protoservice/src/streaming/pool-clients-manager.go:24-28 | returns the number of pooled clients |
| ClientPool.PoolClients.IsFilled | protoservice/src/streaming/pool-clients-manager.go:30-35 | true exactly when len(pool) + 1 >= size |
| ClientPool.PoolClients.Push | protoservice/src/streaming/pool-clients-manager.go:37-51 | the new pool and the error are those of `Pushed`; the pool stays within capacity and well keyed |
| ClientPool.PoolClients.Get | protoservice/src/streaming/pool-clients-manager.go:53-61 | a pooled address gives its client; any other gives ClientObjectIsNil |
| ClientPool.PoolClients.Delete | protoservice/src/streaming/pool-clients-manager.go:63-71 | the new pool and the error are those of `Deleted` |
| Handlers.Registered | protoservice/src/streaming/handlers-manager.go:17-24 | a URI that already has a handler leaves the registry unchanged; a new URI is added with its handler and every other entry is kept |
| Handlers.FirstRegistrationWins | protoservice/src/streaming/handlers-manager.go:17-24 | over any sequence of registrations, registered URIs are never lost and keep their handler; a new URI ends up with the handler of its first registration, and is registered exactly when it has one |
| Handlers.HandlersManager.constructor | protoservice/src/streaming/handlers-manager.go:10-15 | a new registry is empty |
| Handlers.HandlersManager.RegisterHandler | protoservice/src/streaming/handlers-manager.go:17-24 | the registry becomes `Registered` of the old one |
| Handlers.HandlersManager.GetHandler | protoservice/src/streaming/handlers-manager.go:26-34 | a registered URI gives its handler; any other gives HandlerIsntExist |
| Handlers.RegisterTwice | protoservice/src/streaming/handlers-manager.go:17-34 | after registering h1 and then h2 for the same URI, looking the URI up gives h1 |
| RateLimit.Started | protoservice/src/streaming/rate-limit-manager.go:25-29 | the address gets a counter of 0, overwriting any earlier count; the other counters are kept |
| RateLimit.Hit | protoservice/src/streaming/rate-limit-manager.go:31-39 | a tracked counter goes up by exactly 1; an unknown address is ignored; the key set never changes |
| RateLimit.Stopped | protoservice/src/streaming/rate-limit-manager.go:41-49 | the address's counter is removed if present; the other counters are kept |
| RateLimit.AtLimit | protoservice/src/streaming/rate-limit-manager.go:58-60 | the addresses a tick queues are exactly the tracked ones whose count is at or above the limit |
| RateLimit.Ticked | protoservice/src/streaming/rate-limit-manager.go:58-64 | a tick keeps the key set, keeps the count of every address at the limit and resets every other counter to 0 |
| RateLimit.HitsCount | protoservice/src/streaming/rate-limit-manager.go:31-39 | n frames from a tracked address add exactly n to its counter and change nothing else |
| RateLimit.EvictedIffLimitReached | protoservice/src/streaming/rate-limit-manager.go:31-64 | within one window that started at 0, an address is queued at the next tick exactly when it sent at least `limit` frames, so exactly `limit` frames is enough; otherwise its counter is back at 0 |
| RateLimit.TickedIdempotent | protoservice/src/streaming/rate-limit-manager.go:58-64 | ticking twice gives the same counters as ticking once, and the second tick queues the same addresses again |
| RateLimit.TickedNonNegative | protoservice/src/streaming/rate-limit-manager.go:58-64 | a tick keeps every counter non-negative |
| RateLimit.RateLimiter.constructor | protoservice/src/streaming/rate-limit-manager.go:15-23 | a new limiter has the given limit, no counters and an empty eviction queue |
| RateLimit.RateLimiter.StartNewClientStatistic | protoservice/src/streaming/rate-limit-manager.go:25-29 | the counters become `Started` of the old ones |
| RateLimit.RateLimiter.UpdateClientStatistic | protoservice/src/streaming/rate-limit-manager.go:31-39 | the counters become `Hit` of the old ones |
| RateLimit.RateLimiter.DeleteClientStatistic | protoservice/src/streaming/rate-limit-manager.go:41-49 | the counters become `Stopped` of the old ones |
| RateLimit.RateLimiter.Tick | protoservice/src/streaming/rate-limit-manager.go:58-64 | the counters become `Ticked` of the old ones; the old queue is kept as a prefix; the queue grows by exactly the at-limit addresses, each once, in some order; counters stay non-negative |
| RateLimit.RateLimiter.TakeCloseEvent | protoservice/src/streaming/engine.go:153 | receiving from the eviction channel gives the oldest queued address and removes it; an empty queue gives nothing |
| Streaming.Dispatched | protoservice/src/streaming/engine.go:113-150 | no handler is called when the frame does not decode or its URI is unregistered; otherwise the URI's handler is called with the sender, the whole raw frame and no error |
| Streaming.DispatchUsesFirstRegistration | protoservice/src/streaming/engine.go:126-149 | after any sequence of registrations, a frame for a URI reaches the handler first registered for it, and reaches none when the URI was never registered |
| Streaming.Engine.constructor | protoservice/src/streaming/engine.go:17-24 | a new engine has an empty pool of the given size, no handlers, and a limiter with the given limit, no counters and an empty queue |
| Streaming.Engine.Handle | protoservice/src/streaming/engine.go:26-28 | the handler registry becomes `Registered` of the old one |
| Streaming.Engine.SendMessageClient | protoservice/src/streaming/engine.go:30-37 | an unknown address gives ClientObjectIsNil; otherwise the pooled client's send decides, and no other client is touched |
| Streaming.Engine.NewClient | protoservice/src/streaming/engine.go:39-80 | a filled pool gives PoolClientIsFilled; otherwise a refused upgrade gives UpgradeFailed, and an upgrade with an empty address fails the push with ClientObjectIsNil; every failure returns "" and leaves pool and counters unchanged; success pools a new open client under the returned address, keeps the other clients and starts its counter at 0 |
| Streaming.Engine.CloseConnectionClient | protoservice/src/streaming/engine.go:82-111 | an unknown address changes nothing; a known one is closed, removed from the pool and loses its counter; only that client is touched, and no closed client is reopened |
| Streaming.Engine.RedirectMessageToHandler | protoservice/src/streaming/engine.go:113-150 | the sender's hit is counted first, even for a frame that does not decode; the handler call is `Dispatched` |
| Streaming.Engine.EvictNext | protoservice/src/streaming/engine.go:153-160 | takes the oldest queued address; one no longer pooled is skipped; a pooled one is closed, removed from the pool and loses its counter; only that client is touched |
| Streaming.Engine.WaitRateLimiterEvents | protoservice/src/streaming/engine.go:152-168 | once the queue is drained, the pool holds exactly the clients whose address was not queued, unchanged; the surviving counters are unchanged; every pooled client whose address was queued is closed |
| Sessions.Written | protoservice/src/fileservice/session.go:34-50 | writing succeeds exactly when nothing fails, and then the file at the path holds exactly the buffer, overwriting what was there; a failed create leaves the files unchanged; a failed write or flush leaves a prefix of the buffer; other paths are never touched; every failure reports an error |
| Sessions.WriteOverwrites | protoservice/src/fileservice/session.go:35-49 | a successful write replaces whatever an earlier write, failed or not, left at the same path |
| Sessions.Session.constructor | protoservice/src/fileservice/session.go:18-24 | a new session records the owner's address and the supplied UUID, starts with an empty buffer, and ignores its storage-path argument (the path stays "") |
| Sessions.Session.AppendFileBytes | protoservice/src/fileservice/session.go:26-32 | the buffer becomes the old buffer followed by the chunk |
| Sessions.Session.WriteToDisk | protoservice/src/fileservice/session.go:34-50 | the file system and the error become `Written` of the session's path and buffer; the buffer is not changed |
| Sessions.UploadThree | protoservice/src/fileservice/session.go:18-50 | appending c1, c2, c3 to a new session gives the buffer c1 ++ c2 ++ c3, and a write without fault stores exactly that at the path "" |
| SessionPool.Pushed | protoservice/src/fileservice/pool-sesson-manager.go:24-33 | a UUID already pooled gives SessionIsExist and no change; a new one is filed with its session and every other entry is kept |
| SessionPool.Removed | protoservice/src/fileservice/pool-sesson-manager.go:45-54 | a pooled UUID is removed and every other entry is kept; an absent one gives SessionNoneExist and no change |
| SessionPool.PushedAsWritten | protoservice/src/fileservice/pool-sesson-manager.go:24-33 | push as written returns only when the UUID is already pooled, with SessionIsExist and no change; on a fresh UUID it panics (nil dereference of the shadowing `session`) |
| SessionPool.FreshPushPanics | protoservice/src/fileservice/pool-sesson-manager.go:24-33 | push as written panics exactly where the intended push succeeds, and agrees with it where it returns |
| SessionPool.AsWrittenNeverPools | protoservice/src/fileservice/pool-sesson-manager.go:24-33 | as written, any sequence of pushes either panics or leaves the pool as it was; from the empty pool the first push panics, so no session is ever pooled |
| SessionPool.DeleteUndoesPush | protoservice/src/fileservice/pool-sesson-manager.go:24-54 | deleting a session just pushed succeeds and gives back the pool as it was, after which the UUID can be pushed again |
| SessionPool.SecondPushRefused | protoservice/src/fileservice/pool-sesson-manager.go:24-33 | a second push of the same UUID is refused and the first session stays in place |
| SessionPool.PoolSessionManager.constructor | protoservice/src/fileservice/pool-sesson-manager.go:17-22 | a new session pool is empty |
| SessionPool.PoolSessionManager.Push | protoservice/src/fileservice/pool-sesson-manager.go:24-33 | the new pool and the error are those of `Pushed`; sessions stay filed under their UUID |
| SessionPool.PoolSessionManager.Get | protoservice/src/fileservice/pool-sesson-manager.go:35-43 | a pooled UUID gives its session; any other gives SessionNoneExist |
| SessionPool.PoolSessionManager.Delete | protoservice/src/fileservice/pool-sesson-manager.go:45-54 | the new pool and the error are those of `Removed` |
| SessionPool.PushGetDelete | protoservice/src/fileservice/pool-sesson-manager.go:24-54 | a pushed session is found by get; after a successful delete, get fails with SessionNoneExist and a second delete fails too |
| FileService.Service.constructor | protoservice/src/fileservice/service.go:28-38 | a new service has the given engine, paths and disk, an empty session pool and three empty event channels |
| FileService.Service.HandleOpenSession | protoservice/src/fileservice/service.go:147-248 | exactly one opening event carrying the call's context; a decode failure gives DecodeFailed, an empty address gives a failure with no error, an address with no pooled connection gives ClientObjectIsNil and a UUID in use gives SessionIsExist, none of which touches the sessions; the event is OK exactly when none of these holds, and then a new empty session owned by the reported address is pooled under the UUID and nothing else changes |
| FileService.Service.HandleReceivingFileFrames | protoservice/src/fileservice/service.go:40-145 | exactly one event carrying the call's context; a decode failure or an unknown UUID gives a failed frame event and changes nothing else; otherwise the chunk is appended; a non-last chunk gives an OK frame event; the last chunk writes the buffer to "", deletes the session whatever the write did, and gives an OK closing event even when the write failed |
| FileServiceManager.ShouldClose | protoservice/src/application/file-service-manager.go:31-95 | a closing event always closes the connection; an opening or frame event closes it exactly when it failed |
| FileServiceManager.React | protoservice/src/application/file-service-manager.go:31-95 | a failed event that carries no error panics in the log call (file-service-manager.go:45, 67, 88) before anything is closed, and changes nothing; otherwise, when `ShouldClose` holds, the sender is disconnected as by CloseConnectionClient, and pool and counters are unchanged when it does not |

## Left out

- Locking: `sync.Mutex`/`sync.RWMutex` are not modelled. Each manager operation and each handler call is treated as one atomic, sequential step.
- Concurrency: the goroutines (the read loop started by NewClient, each callback of the read loop, the eviction loop, the ticker loop, the three manager loops) are not modelled. Connection.Client.ReceiveMessage returns the forwarded frames in read order instead of calling the callback concurrently. NewClient does not start the read loop.
- Timing: the one-second `time.Ticker`. Each tick is an explicit call of Tick.
- Channels: blocking and capacity are not modelled (the eviction channel has capacity poolSizeClients; the event channels are unbuffered). Each channel is a sequence that is appended to and taken from.
- The `for ... range` loops of file-service-manager.go. React is the body of one iteration, for one event.
- `Iterate` (pool-clients-manager.go:73-88): its point is asynchronous delivery outside the lock.
- Logging is not modelled, apart from one of its panics: FileServiceManager.React reports the nil-error dereference of a failed event without an error as `panicked`. That the panic ends the whole process, and with it every other loop, is not modelled. The nil-client dereference of NewClient's log is left out (next line).
- Streaming.Engine.NewClient: after a failed upgrade the Go program dereferences a nil client while logging (engine.go:54). The model returns UpgradeFailed and changes no state.
- Connection.Client.SendMessage: the client's mutex is never initialized, so a send that passes the guard would dereference a nil mutex (client.go:16, 51). The model lets the write happen, and the guard stays inverted as written.
- Streaming.Engine.SendMessageClient: it inherits the gap of Connection.Client.SendMessage. For a pooled, closed client the model writes the message, where the Go program panics on the nil mutex (client.go:51).
- SessionPool.Pushed: states the intended push. As written, a fresh UUID panics (pool-sesson-manager.go:27-30); that behaviour is SessionPool.PushedAsWritten (see "## Findings").
- SessionPool.PoolSessionManager.Push: implements the intended push, `Pushed`, not the panicking one written at pool-sesson-manager.go:30.
- FileService.Service.HandleOpenSession: its success branch uses the intended push. As written, that branch panics inside push on the read-loop goroutine, so the process ends and no OK opening event is ever sent.
- SessionPool.DeleteUndoesPush: is about the intended push; as written the push it starts from panics.
- SessionPool.SecondPushRefused: is about the intended push; as written the first push panics, so no second push happens.
- SessionPool.PushGetDelete: is about the intended push; as written its first push panics.
- The websocket transport: upgrade, read, write and close. Each is an abstract input, and the error of `connection.Close` is only logged. The HTTP-level address and the callback field of the client are not modelled.
- Protobuf decoding (`proto.Unmarshal`) and `uuid.New()` are inputs.
- `os.Create`, `bufio.Writer.Write`/`Flush` and `file.Close` are modelled as a path → bytes map plus a `DiskFault` input. Every session writes to the path "", because newSession drops its path argument. On a real file system `os.Create("")` fails, and the model leaves that outcome to the fault input.
- The append-error branch of HandleReceivingFileFrames (service.go:74-89) is not modelled: `bytes.Buffer.Write` never returns an error, so Sessions.Session.AppendFileBytes returns none.
- The `websocketClient == nil` branch of HandleOpenSession (service.go:199-212) is not modelled: the pool's Get returns a nil error only together with a pooled, non-nil client.
- Streaming.Engine.WaitRateLimiterEvents: it does not state that the fields of the clients it keeps are unchanged. That per-item guarantee is stated by the frames of Streaming.Engine.EvictNext and Streaming.Engine.CloseConnectionClient.
- FileService.Service.HandleReceivingFileFrames: the closing event with OK = false, which the Go code sends when the delete fails, cannot happen in a sequential model. A delete right after a successful get always succeeds, so the contract states that the closing event is always OK.
- main.go, http-server.go and the test harness are outside this model.

## Findings

| source | as written | input that shows it | evidently intended | confidence | as-written member | corrected member |
|---|---|---|---|---|---|---|
| protoservice/src/fileservice/pool-sesson-manager.go:27-31 | the `session` declared in the if statement's initializer shadows the parameter in the else branch too, so line 30 reads the UUID of a nil session and panics | any push of a session whose UUID is not pooled, e.g. the first handshake, on the empty pool, from a pooled client with a non-empty address | file the pushed session under its UUID and return nil | not executed | SessionPool.PushedAsWritten (shown by SessionPool.FreshPushPanics and SessionPool.AsWrittenNeverPools) | SessionPool.Pushed (with SessionPool.DeleteUndoesPush and SessionPool.SecondPushRefused) |
