# Suricata receiver and mitm host gating, modelled in Dafny

This project models the small pure logic of two integrations.

The first is the mirroring receiver (`ReceiverFunc` in Go). It picks the network
interfaces to capture on, splices an `af-packet:` section for them into Suricata's
configuration, and launches `stdbuf -oL suricata -c <config> -i <iface> …`. It then
forwards every stdout line that decodes as an event until the context is done, the
stream ends, or the scanner fails.

The second is the mitmproxy capture addon (Python). It filters `ALLOWED_HOSTS`,
refuses to start unless 1 to 5 hosts remain, builds the stripped `domain_filter`,
and decides for each flow whether to trace it and which `http.flavor` to record.

Modules:

- `Wrappers`: `Option` and `Result`.
- `Seqs`: order-preserving `Filter` and `FilterMap`, the `Kept` index list, and
  `IsSubsequence`.
- `Text`: substring occurrence, `Join` and `IndexOf`.
- `GoStrings`: `strings.ReplaceAll`, with the split into pieces that describes it.
- `PyStrings`: `str.split(c)` and `str.strip()`, including Python's full whitespace set.
- `SuricataConfig`: the af-packet template, a parser that inverts it, and the placeholder splice.
- `Interfaces`: the up, non-loopback filter, discovery, and the choice of interface list.
- `Forwarder`: the scan loop, as a recursive fold over the scanned lines.
- `Receiver`: the `stdbuf` argument vector and the whole of `ReceiverFunc`.
- `Capture`: the mitm addon's start-up checks and per-flow decision.

Inputs that come from outside the code become parameters:

- The host's interface table (`net.Interfaces()`, or its failure).
- The outcome of each file and process step of `ReceiverFunc`: copy, read, write,
  stdout pipe and start.
- The lines Suricata prints, each paired with whether the context was done when the
  loop checked it, and how the stream ended.
- A `decode` function standing for `json.Unmarshal`.
- For the addon: the `ALLOWED_HOSTS` value, and whether `SENSOR_ID` is a valid UUID.

Behaviour of the code worth noting:

- The context is only checked after a line has been read. An empty stream therefore
  returns without error even when the context was cancelled before the loop.
- `-c <config>` comes before the `-i` flags.
- Every placeholder marker is replaced, not only a single one.

## Model

| member | source | states |
|---|---|---|
| SuricataConfig.Render | integrations/mirroring/layers/receiver.go:21-27 | The block starts with the `af-packet:` header and ends with a newline. Its length is 13 + 48·n + the total length of the n names, so it grows linearly with the interface list. |
| SuricataConfig.ParseRender | integrations/mirroring/layers/receiver.go:21-27 | For names without line breaks, parsing the rendered block gives back exactly the names, in order. So the block has one `interface:` entry per name, each followed by `cluster-type: cluster_flow`. |
| SuricataConfig.RenderParse | integrations/mirroring/layers/receiver.go:21-27 | The parser accepts only rendered blocks of single-line names. Whatever it accepts is exactly the rendering of what it returns. |
| SuricataConfig.Splice | integrations/mirroring/layers/receiver.go:96 | `strings.ReplaceAll` of the marker by the block. It has no contract of its own: `SpliceWithoutPlaceholder`, `SpliceReplacesEveryPlaceholder` and `SpliceLeavesNoPlaceholder` state its behaviour. |
| SuricataConfig.SpliceWithoutPlaceholder | integrations/mirroring/layers/receiver.go:96 | If `# af-packet-section-placeholder` does not occur in the configuration, the splice returns the configuration unchanged: a silent no-op. |
| SuricataConfig.SpliceReplacesEveryPlaceholder | integrations/mirroring/layers/receiver.go:96 | The configuration is marker-free pieces joined by markers, and the splice joins the same pieces with the block. Every marker is replaced and the text between markers is kept. There is more than one piece exactly when a marker occurs. |
| SuricataConfig.SpliceLeavesNoPlaceholder | integrations/mirroring/layers/receiver.go:96 | If no interface name contains the marker, the spliced configuration contains none. The block begins and ends with a newline and the marker has none, so the surrounding text cannot form a new marker across a seam. |
| GoStrings.ReplaceAll | integrations/mirroring/layers/receiver.go:96 | The leftmost, non-overlapping replacement loop of `strings.ReplaceAll`. It has no contract of its own: `ReplaceAllIsJoin`, `JoinSplitOn` and `SplitOnPiecesAreClean` state its behaviour. |
| GoStrings.ReplaceAllIsJoin | integrations/mirroring/layers/receiver.go:96 | `strings.ReplaceAll` equals the scan's pieces joined with the replacement. |
| GoStrings.JoinSplitOn | integrations/mirroring/layers/receiver.go:96 | Joining the scan's pieces with the search string gives back the input. |
| GoStrings.SplitOnPiecesAreClean | integrations/mirroring/layers/receiver.go:96 | No piece contains the search string. Every piece but the last, followed by the search string without its last character, contains no occurrence either. So each replaced occurrence is the leftmost and they do not overlap. |
| GoStrings.SplitOnSingle | integrations/mirroring/layers/receiver.go:96 | The text splits into one piece exactly when the search string does not occur in it. |
| Receiver.Argv | integrations/mirroring/layers/receiver.go:139-142 | The argument vector starts with `-oL suricata -c <config>`, then has `-i` and the i-th interface at positions 4+2i and 5+2i. Its length is 4 + 2·n. |
| Receiver.ArgvRoundTrip | integrations/mirroring/layers/receiver.go:139-142 | Reading the `-i` values back from the vector gives exactly the interface list, in order. |
| Interfaces.NonLoopbackUp | integrations/mirroring/layers/receiver.go:197-202 | A name is in the result exactly when some table entry with that name has loopback clear and up set. The result is no longer than the table. |
| Interfaces.NonLoopbackUpInOrder | integrations/mirroring/layers/receiver.go:197-202 | The j-th name belongs to the j-th usable entry. The positions increase, and every usable entry is included, so enumeration order and duplicates are kept. |
| Interfaces.Discover | integrations/mirroring/layers/receiver.go:190-209 | A failed enumeration gives its error. "No suitable interface" is returned exactly when no entry is usable. Otherwise the result is the non-empty filtered list. |
| Interfaces.ChooseInterfaces | integrations/mirroring/layers/receiver.go:115-123 | A non-empty supplied list is used as is. An empty one is replaced by the discovery result. A chosen list is never empty. |
| Forwarder.Forward | integrations/mirroring/layers/receiver.go:166-186 | The loop reports cancellation exactly when some line was read while the context was done. It returns nil exactly when the stream ends cleanly and no read saw the context done. It returns the scanner error exactly when the stream fails and no read saw the context done. It never sends more events than lines. |
| Forwarder.ForwardedAreDecodedLines | integrations/mirroring/layers/receiver.go:166-179 | The events sent are exactly the decodable lines read before the first read that saw the context done, in order. That line and everything after it send nothing. |
| Forwarder.UndecodableLineIsSkipped | integrations/mirroring/layers/receiver.go:173-177 | Inserting a line that does not decode, read while the context is not done, anywhere in the stream, changes neither the events nor the outcome. |
| Forwarder.CancelledFromTheStart | integrations/mirroring/layers/receiver.go:166-171 | If the context is done throughout, nothing is sent. The loop reports cancellation exactly when at least one line arrives. |
| Receiver.Receive | integrations/mirroring/layers/receiver.go:113-187 | A discovery failure returns before any configuration step, with no effects and no events. Once Suricata is started, the last effect is always the kill. Events are only sent after a start. |
| Receiver.LaunchMatchesConfig | integrations/mirroring/layers/receiver.go:127-144 | Suricata is started third, after the copy of `/root/obs-integ/suricata.yaml` to `/root/obs-integ/temp-suricata.yaml` and the write. The file written is the one passed to `-c`. It holds the original with the block for exactly the `-i` interfaces spliced in. That list is non-empty and equals the supplied list when one was given. |
| Receiver.StartedRunForwards | integrations/mirroring/layers/receiver.go:151-186 | Once Suricata is started, the call sends exactly the loop's events and returns the loop's error. |
| Receiver.FailingStep | integrations/mirroring/layers/receiver.go:115-154 | Each failing step ends the call with its own error and no events. A discovery error or a failed copy leaves no effects. A failed read or write leaves only the copy. A failed pipe or start leaves the copy and the write. |
| Receiver.SuppliedListSkipsDiscovery | integrations/mirroring/layers/receiver.go:115-123 | With a non-empty supplied list, the host's interface table does not affect the result. |
| Receiver.ReceiveSucceeds | integrations/mirroring/layers/receiver.go:113-187 | The call returns nil exactly when all of these hold: an interface list is chosen, every file and process step succeeds, the stream ends cleanly, and no read saw the context done. The events are then those of the loop. |
| Capture.FilterAllowedHosts | integrations/mitm/capture.py:15-17 | A host is kept exactly when it is not `localhost`, `127.0.0.1`, `[::1]` or `*`. Each kept host appears as many times as in the input, and each excluded host appears zero times. |
| Capture.FilterAllowedHostsIsSubsequence | integrations/mitm/capture.py:15-17 | The result is a subsequence of the input, so order is kept. |
| Capture.FilterAllowedHostsIdempotent | integrations/mitm/capture.py:15-17 | Filtering the result again changes nothing. |
| Capture.PaddedLocalhostIsAllowed | integrations/mitm/capture.py:15-17 | Exclusion compares the text before stripping, so `" localhost"` passes the filter. |
| Capture.PaddedLocalhostBecomesDomain | integrations/mitm/capture.py:62 | `" localhost"` then becomes the domain `localhost`. |
| Capture.Startup | integrations/mitm/capture.py:20-62 | An invalid sensor id is refused first. After that, start-up is refused exactly when the filtered `ALLOWED_HOSTS` list has 0 or more than 5 entries. An accepted configuration holds that list and its domain filter. |
| Capture.UnsetAllowedHostsStarts | integrations/mitm/capture.py:20-62 | An unset `ALLOWED_HOSTS` splits to `[""]`. That one entry passes the count check and gives an empty domain filter. |
| Capture.DomainFilter | integrations/mitm/capture.py:62 | Every domain is non-empty, with no whitespace at either end. A domain occurs exactly when some allowed host strips to it. |
| Capture.DomainFilterInOrder | integrations/mitm/capture.py:62 | The j-th domain is the stripped j-th host that does not strip to nothing, so the hosts' order is kept. |
| Capture.DomainsAreStripped | integrations/mitm/capture.py:62 | Stripping a domain again changes nothing. |
| Capture.ProcessRequest | integrations/mitm/capture.py:99-112 | As written, a flow is skipped exactly when its host is not in the domain filter. The reason is always the host, never the size guards. A traced flow carries the flavor of its HTTP version, which is set exactly when the version contains `/`. |
| Capture.Decide | integrations/mitm/capture.py:100-120 | The host gate, then the request guard, then the response guard, then the flavor, with the size test as a parameter. It has no contract of its own: the contracts of `ProcessRequest` and `ProcessRequestIntended` state its behaviour. |
| Capture.GuardAsWrittenNeverFires | integrations/mitm/capture.py:104-111 | `(len(...) > 100) > 1048576` is false for every body length. |
| Capture.ProcessRequestIntended | integrations/mitm/capture.py:104-111 | With the guard comparing the length itself: a flow of an allowed host is skipped for its request body exactly when that body exceeds 1048576 bytes. It is skipped for its response body exactly when only that body does. |
| Capture.OversizedBodyIsTraced | integrations/mitm/capture.py:104-107 | An allowed flow with a 2 000 000-byte request body is traced as written, but skipped by the intended guard. |
| Capture.IntendedAgreesWithinLimit | integrations/mitm/capture.py:104-111 | The two versions agree on every flow whose bodies are within the limit. |
| Capture.Flavor | integrations/mitm/capture.py:118-120 | A flavor is set exactly when the HTTP version contains `/`. |
| Capture.FlavorIsSecondSegment | integrations/mitm/capture.py:118-120 | The flavor is the text after the first `/` up to the next `/` or the end. It contains no `/`. |
| PyStrings.Split | integrations/mitm/capture.py:20 | `str.split(c)` always gives at least one part. `SplitParts` and `JoinSplit` state the rest. |
| PyStrings.SplitParts | integrations/mitm/capture.py:20 | No part contains the separator, and there is one more part than separators. |
| PyStrings.JoinSplit | integrations/mitm/capture.py:20 | Joining the parts with the separator gives back the text. |
| PyStrings.Strip | integrations/mitm/capture.py:62 | The result is a slice of the input with only whitespace around it, and it has no whitespace at either end. |
| PyStrings.StripIdempotent | integrations/mitm/capture.py:62 | Stripping twice is stripping once. |

## Left out

- File copy, read and write of the fixed YAML paths (receiver.go:30-62, 66, 98): filesystem I/O. The paths appear in the `CopiedConfig` and `WroteConfig` effects. The configuration is a string in and a string out. Each step's success is a field of `Receiver.Host`.
- Bytes versus characters: Go handles the configuration and the interface names as bytes, while the model uses Unicode strings. The splice agrees on valid UTF-8, since the marker is ASCII. The length in `SuricataConfig.Render` counts characters, not bytes. A configuration that is not valid UTF-8 cannot be represented.
- A copy that fails half-way, and a write that truncates then fails: no partial-file state is modelled. A failed step simply returns its error.
- Template parse and execute errors (receiver.go:75-93): the template is a constant and the data is a string slice, so these paths cannot occur.
- `strings.ReplaceAll` with an empty search string: the only call site passes the fixed non-empty marker.
- `exec.Command`, `StdoutPipe`, `Start` and the deferred `Kill` (receiver.go:144-160): subprocess management. They appear only as the `Started` and `Killed` effects and the pipe/start outcomes. A kill failure is only logged, so it is not modelled.
- `net.Interfaces()` (receiver.go:191): OS call. The table is an input, with each entry's flags reduced to the loopback and up bits.
- `json.Unmarshal` into `SuricataHTTPEvent` (receiver.go:175): library decoding. It is the `decode` parameter.
- `bufio.Scanner` line splitting and its buffer limit: the lines are given. A too-long line shows up as the `ScanError` stream end.
- Channel blocking and backpressure, and the timing of `ctx.Done()` (receiver.go:168-176): concurrency. Cancellation is the flag carried by each scanned line.
- Logging (`slog`, `logging`) throughout.
- `is_valid_uuid` (capture.py:35-46): depends on Python's `uuid.UUID` parser. Its verdict is the `sensorIdValid` input of `Capture.Startup`.
- The worker thread pool, the queue, `response`, `shutdown` and `atexit` (capture.py:64-96, 155-180): threading.
- Capture.ProcessRequest: takes the body lengths as given numbers. In mitmproxy, `flow.request.content` and `flow.response.content` can be `None` (a streamed body), and reading them raises `ValueError` on an invalid `Content-Encoding`. `len(...)` at capture.py:104 or 109 then raises instead of tracing. `Worker.run` (capture.py:88-96) has only `try`/`finally`, so the exception ends that worker thread. The model traces such a flow; this failure path is not modelled.
- OpenTelemetry setup and span attributes other than `http.flavor`, and the mitmproxy types (capture.py:67-79, 115-153): foreign libraries.
- `NUM_WORKERS`, `WORK_QUEUE_SIZE`, `TRACE_RATIO` and the other environment settings (capture.py:21-29): integer and float parsing of the environment.

## Findings

| source | as written | input that shows it | evidently intended | confidence | as-written member | corrected member |
|---|---|---|---|---|---|---|
| integrations/mitm/capture.py:104-111 | `req_body_length = len(flow.request.content) > 100` is a boolean, then compared with `MAX_BODY_SIZE_IN_BYTES` (1048576), so neither guard can skip a flow | an allowed host with a 2 000 000-byte request body is traced (`Capture.OversizedBodyIsTraced`) | skip the flow when the body length exceeds 1048576 bytes, as the log message says | high; not executed | Capture.ProcessRequest | Capture.ProcessRequestIntended |
