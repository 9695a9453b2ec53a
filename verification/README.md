# nethealth: endpoint parsing and the probe protocol, in Dafny

nethealth is a peer-to-peer reachability prober. Each instance runs an
`Endpoint`. The endpoint answers probes from other instances: its server
reads one message and replies with its own name. It also probes every
configured peer in a loop: it dials the peer, sends its name, reads the
reply and emits a statsd timing sample named after itself and the reply.
The peer list comes from the `ENDPOINTS` environment variable, read by
`readConfig`.

This project models the parts of that code that decide things, as pure
functions over immutable values:

- `GoStrings`: Go strings as byte sequences, with `strings.Split` and `strings.Join` on a one-byte separator. Split and Join are proved inverse to each other.
- `Net`: `net.JoinHostPort`, and what one `Conn.Read(buf)` does to the buffer.
- `Config`: `readConfig`. It covers the `readValue` rule, the `ENDPOINTS` split and the default-port loop.
- `Endpoints`: the `Endpoint` struct, `AddPeer`, `Stop`, and `main`'s `AddPeer` loop.
- `Server`: the `runServer` loop. The socket is replaced by the sequence of accept and read outcomes it would see.
- `Prober`: one sweep of `checkEndpoints`. The network is replaced by one dial-and-read outcome per peer.
- `Agent`: how `main` builds the endpoint, one pass of the prober loop, and the effect of `Stop` on both loops. Nothing in the program ever calls `Stop`: `main`'s `defer endpoint.Stop()` (nethealth.go:110) is skipped by the `os.Exit(1)` at nethealth.go:120, which does not run deferred calls.

The model follows what the code does. `AddPeer` is a plain append: adding an address twice gives two
entries. No per-peer failure counter or up/down status exists. `maxFailed`
is declared but never read, so none is modelled.

## Model

| member | source | states |
|---|---|---|
| Config.ReadValue | nethealth.go:33-39 | the value of the variable when it is non-empty, the default otherwise; an empty result only when both are empty |
| Config.WithDefaultPort | nethealth.go:54-57 | an element with a colon is kept as is; one without gets `:3333` appended (the bracketing branch of `JoinHostPort` cannot fire); the result always has a colon |
| Net.JoinHostPort | nethealth.go:56 | the result ends with `:` and the port; for a host without a colon it is the host, `:` and the port |
| GoStrings.Split | nethealth.go:53 | `strings.Split` gives one piece more than there are commas, no piece holds a comma, and joining the pieces with commas gives back the input |
| GoStrings.SplitJoin | nethealth.go:53 | splitting undoes joining for comma-free pieces, so the pieces are exactly the comma-separated elements |
| Config.ParseEndpoints | nethealth.go:51-61 | an empty ENDPOINTS adds nothing; otherwise it adds commas+1 endpoints after the earlier ones, which stay unchanged and in order; element k becomes endpoint k, unchanged if it has a colon and with `:3333` appended if not; every added endpoint has a colon |
| Config.AppendEndpoints | nethealth.go:52-60 | the `for … range strings.Split` loop with its append computes exactly `ParseEndpoints` |
| Config.EmptyElementGetsDefaultPort | nethealth.go:53-57 | `a,,b` yields `a:3333`, `:3333`, `b:3333`: the empty element gets the default port too |
| Config.ReadConfig | nethealth.go:32-62 | peer name from PEERNAME or the host name, port text from PORT or `3333`, endpoints parsed from ENDPOINTS and appended to the existing list (unchanged when ENDPOINTS is unset or empty) |
| Endpoints.NewEndpoint | nethealth.go:108 | the endpoint `main` creates has the given name and port, no peers, and is not exiting |
| Endpoints.AddPeer | endpoint.go:90-93 | one more peer, the new address last, earlier peers unchanged and in order, one more occurrence of the address, other fields untouched |
| Endpoints.AddPeerTwice | endpoint.go:92 | adding an address twice leaves two entries for it; `AddPeer` is not idempotent |
| Endpoints.Stop | endpoint.go:95-97 | sets `exiting` and changes no other field |
| Endpoints.StopIdempotent | endpoint.go:95-97 | stopping twice equals stopping once, and `Stop` commutes with `AddPeer` |
| Endpoints.AddPeers | nethealth.go:112-114 | `main`'s loop over the endpoints appends them all, in order, after the existing peers |
| Agent.Launch | nethealth.go:75-114 | with no endpoints `main` builds no endpoint (it turns to discovery); otherwise the endpoint carries the peer name, the port and exactly the configured endpoints as peers, and is not exiting. This is the endpoint once the `AddPeer` loop (lines 112-114) has finished; `main` calls `Start` (line 109) before that loop, so a sweep running meanwhile may see only some of the peers or none |
| Net.Taken | endpoint.go:44-46 | one read takes at most the buffer's 256 bytes: a prefix of the bytes available to that read, all of them when they fit |
| Net.ReadInto | endpoint.go:76 | after a read the buffer keeps its length, starts with the bytes taken, and keeps its old contents after them |
| Server.Handle | endpoint.go:44-53 | after a successful read the only reply is the endpoint's name, whatever the client sent; a failed read gets no reply; the connection is closed once, as the last step; at most 256 bytes of the message are taken |
| Server.HandleAll | endpoint.go:38-54 | corrected (see ## Findings): over a run of connections, every accepted connection is closed, every successful read gets exactly one reply, and every reply is the endpoint's name |
| Server.Serve | endpoint.go:38-54 | corrected (see ## Findings): an exiting endpoint accepts nothing; otherwise every accepted connection is closed, every successful read is answered, every reply is the endpoint's name, and nothing panics |
| Server.HandleAllConcat | endpoint.go:38-54 | connections are handled one after another, independently of each other |
| Server.AsWrittenWithoutAcceptErrors | endpoint.go:38-54 | when no accept fails, the loop as written behaves as intended |
| Server.AcceptErrorPanics | endpoint.go:39-46 | as written, the first failed accept ends the loop in a panic after the connections before it; none after it are served |
| Server.ServeAsWritten | endpoint.go:38-54 | the accept loop as written: an exiting endpoint accepts nothing; otherwise the loop panics exactly when some accept fails. Without failed accepts it equals `Serve` (`AsWrittenWithoutAcceptErrors`); with one, it is `Serve` of the connections before the first failure followed by the panic (`AcceptErrorPanics`) |
| Server.AcceptErrorSkipped | endpoint.go:39-42 | with a failed accept skipped, the connections on both sides are served as if it had not happened, and nothing panics |
| Prober.Visit | endpoint.go:66-81 | corrected (see ## Findings): one peer: always dialled; on a failed dial no write, read or sample; on a successful one a write and a read of that peer and one sample named after the reply |
| Prober.Sweep | endpoint.go:66-81 | corrected (see ## Findings): every peer is dialled in list order; the samples are the name, `.` and each reply, one per reachable peer, in order |
| Prober.SweepContacts | endpoint.go:66-76 | exactly the reachable peers are written to and read from, in list order; a peer whose dial failed gets neither |
| Prober.VisitAsWritten | endpoint.go:66-81 | as written, one peer: a failed dial leaves the trace at one dial and the buffer untouched; a successful one writes to the peer, reads its reply into the front of the shared buffer, and names the sample after the whole buffer |
| Prober.SweepAsWritten | endpoint.go:58-81 | the sweep loop as written, from the buffer the previous sweep left: every peer is dialled, in list order, and the buffer stays 256 bytes long |
| Prober.SweepAsWrittenSamples | endpoint.go:58-81 | as written, the sample of the k-th reachable peer is the name, `.` and the whole buffer after the k-th read into the shared buffer, and the sweep leaves the buffer of its last read for the next sweep |
| Prober.AsWrittenExtendsIntended | endpoint.go:58-81 | as written, each sample name starts with the intended one (the name, `.` and that peer's reply); only the bytes after the reply are padding or stale |
| Prober.SweepAsWrittenTrace | endpoint.go:58-81 | as written: every peer is dialled in list order, exactly the reachable peers are written to, one sample per reachable peer, and every sample name is the name, `.` and all 256 bytes of the buffer |
| Prober.SweepAsWrittenConcat | endpoint.go:58-81 | a sweep over two runs of peers is the first run's sweep followed by the second's, started from the buffer the first left |
| Prober.FailedDialOnlyDials | endpoint.go:68-72 | a peer whose dial fails adds only its dial step; the rest of the sweep is as if it were absent |
| Prober.StaleReplyBytes | endpoint.go:58-78 | as written, after replies `r1` then a shorter `r2`, the second sample name ends with the tail of `r1`, where the intended name ends with `r2` |
| Prober.StaleReplyFromFreshBuffer | endpoint.go:58-78 | as written, from the zeroed buffer `make` gives, replies `r1` then a shorter `r2` make the second name `r2`, the tail of `r1` and then NUL bytes |
| Prober.AsWrittenNamePadded | endpoint.go:76-78 | as written, a reply shorter than the buffer gives a sample name that differs from the intended one |
| Agent.ProberRound | endpoint.go:65-82 | corrected (see ## Findings): no sweep once the endpoint is exiting; otherwise one sweep that dials every peer in order and names one sample per reachable peer after its reply |
| Agent.ProberRoundAsWritten | endpoint.go:58-82 | as written: no sweep once the endpoint is exiting; otherwise every peer is dialled in order, each reachable peer's sample is the name, `.` and the whole shared buffer after its read, and the buffer of the last read is handed to the next pass |
| Agent.StoppedEndpointIsIdle | endpoint.go:95-97 | after `Stop` the prober starts no sweep and the server accepts no connection, in either version of either loop (though the program itself never calls `Stop`) |

## Findings

| source | as written | input that shows it | evidently intended | confidence | as-written member | corrected member |
|---|---|---|---|---|---|---|
| endpoint.go:39-46 | an accept error is logged, but the loop goes on to `conn.Read` on the nil connection `Accept` returned, which panics and ends the process | any `Accept` call that fails | skip to the next accept, as the log message and the surrounding loop suggest | high; not executed | Server.AcceptErrorPanics | Server.AcceptErrorSkipped |
| endpoint.go:58-78 | one 256-byte buffer, allocated once, takes every reply, and the stat name formats the whole buffer | a peer replies `node-long`, then another replies `b`: the second name is `<name>.bode-long` followed by NUL bytes | the name, `.`, and the bytes of that reply | high; not executed | Prober.StaleReplyFromFreshBuffer | Prober.Sweep |

`Serve`, `Sweep` and `Agent.ProberRound` are the corrected versions.
`ServeAsWritten`, `SweepAsWritten` and `Agent.ProberRoundAsWritten` model the
code as written. The lemmas above relate the two accept loops and the two
sweeps.

## Left out

- Agent.ProberRound: runs the corrected sweep of the second Findings row, so its sample names are the name, `.` and the reply, not the whole 256-byte buffer that endpoint.go:78 formats; `Agent.ProberRoundAsWritten` states what the loop as written emits.

- Sockets are not modelled: listen, accept, dial, the 100 ms dial timeout, and read/write errors beyond the outcomes they produce. Their results are inputs: `ConnEvent` for the server, `Probe` for the prober.
- A failed listen (endpoint.go:30-34) is left out. It only logs and returns.
- The goroutines started by `Start` are not modelled, nor the unsynchronised access to `exiting` and `peers`. Within one call of `Serve` or `ProberRound` the exit flag is a constant, so a `Stop` in the middle of a loop is not expressible.
- Every read is assumed to return. Neither `conn.Read` has a deadline: the server's (endpoint.go:46) has none, and the prober's `SetDeadline` (endpoint.go:74) is commented out. A client that never sends stops the accept loop for good, and a peer that accepts but never replies stops the sweep, so no later peer is dialled. `ReadResult` and `Probe` always describe a completed read, so `Sweep`'s "every peer is dialled" and `HandleAll`'s "every accepted connection is closed" hold only under this assumption.
- Short reads are not distinguished: a `Read` takes a prefix of the bytes available to it, and the model takes those bytes as given, not the whole message the client sent.
- Timing is left out: `time.Now`, `time.Since` and `sleepTime`. A sample records only its name, not its latency value.
- The statsd client, and its creation error, are left out. A sample is the `Timing` step of the trace.
- The prober's ignored `Write` and `Read` errors are folded into its input. A failed read is a `Dialed` probe with an empty reply, which leaves the buffer unchanged.
- Logging is left out. That includes the server's `Received message` line, which prints the whole buffer.
- Parsing `PORT` with `strconv.Atoi`, and its abort path, are left out. The model keeps the port text, and `Agent.Launch` takes the parsed port as a parameter.
- The error of `os.Hostname` is left out. The host name is a parameter.
- Kubernetes discovery and `buildConfig` (nethealth.go:64-106) are left out. `Agent.Launch` only records that no endpoint is built when no endpoints are configured.
- Signal handling and process exit (nethealth.go:116-120) are left out.
- Only one sweep is modelled. The buffer carried between sweeps as written is the `buf` parameter of `SweepAsWritten`.
- Go strings are modelled as byte sequences. `[]byte(s)` and `string(b)` are then the identity, and UTF-8 plays no part.
