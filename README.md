# windriver-hub registry and forwarder, modelled in Dafny

The windriver hub is a session-aware reverse proxy. Worker nodes register a
base URL and get back a fresh session id. Every registration (after storing
its entry) and every node listing runs a health sweep before replying. The sweep probes each registered node at
`<nodeUrl>/WinAuto/HealthCheck` and evicts the ones whose answer is not a
body containing `OK`. Any other inbound call is forwarded. The hub reads its
body line by line and looks up the node bound to the `windriver_sessionId`
header. It then sends the call to that node URL followed by the request path.

This project models that core, `FrontController`:

- `Wrappers.dfy`: `Option` (a Java reference that may be null) and `Result` (a call that may throw).
- `Health.dfy`: the probe outcome as an oracle value, substring containment, the probe URL and the health verdict.
- `BodyReader.dfy`: `BufferedReader.readLine` splitting (`NextLine`, `Lines`) and the loop that appends the lines (`ReadBody`).
- `Routing.dfy`: the forward target `getRequestURI`.
- `FrontController.dfy`: the `Hub` class. It holds the session table as a `map` field. Its methods are the sweep, registration, listing and request interception. The file also holds the declarative meaning of a sweep (`Survivors`) and lemmas relating the operations.

The network is an argument. A sweep takes `probe: string -> ProbeOutcome`, which says
what the GET on a probe URL produced: `Failed` (any exception) or
`Responded(body)` with a body that may be null. The UUID a registration
generates is the argument `freshId`.

Some behaviours of the source, all modelled as written:
- An unknown session id is not an error: the target is the text `"null"` followed by the path.
- A request without the session header fails, because a concurrent hash map throws on a null key. This is `MissingSessionHeader`.
- No query string is forwarded.
- `put` overwrites an existing id, and `Register` models that overwrite.

## Model

| member | source | states |
|---|---|---|
| Health.Contains | src/main/java/com/epam/windriver/hub/FrontController.java:52 | `contains` holds iff the marker occurs at some index of the body (substring, not prefix or equality) |
| Health.Healthy | src/main/java/com/epam/windriver/hub/FrontController.java:48-58 | a node is healthy iff the probe call returned, its body is non-null, and the body contains `OK` somewhere; exception, null body or missing marker mean unhealthy |
| Health.HealthyVerdicts | src/main/java/com/epam/windriver/hub/FrontController.java:49-55 | `"status: OK"` and `"OK"` are healthy; `"ok"`, the empty body, a null body and a failed call are not |
| Health.ProbeUrlInjective | src/main/java/com/epam/windriver/hub/FrontController.java:49 | the probe URL `nodeUrl + "/WinAuto/HealthCheck"` determines the node URL: distinct nodes are probed at distinct URLs |
| FrontController.Survivors | src/main/java/com/epam/windriver/hub/FrontController.java:45-60 | after a sweep the keys are a subset of the previous keys; every survivor keeps its URL and answered healthy; an entry stays iff its own probe answered healthy |
| FrontController.Hub.constructor | src/main/java/com/epam/windriver/hub/FrontController.java:38 | the registry starts empty |
| FrontController.Hub.Sweep | src/main/java/com/epam/windriver/hub/FrontController.java:43-63 | looping over a snapshot of the keys and removing each entry whose probe is unhealthy leaves exactly `Survivors` of the old table, whatever order the keys are visited in; the returned table is the new one |
| FrontController.Hub.Register | src/main/java/com/epam/windriver/hub/FrontController.java:65-75 | puts `freshId -> nodeUrl` (overwriting), then sweeps; the reply carries `freshId`, the registration message and the post-sweep table |
| FrontController.Hub.AllNodes | src/main/java/com/epam/windriver/hub/FrontController.java:77-83 | listing is a sweep followed by the post-sweep table |
| FrontController.Hub.Intercept | src/main/java/com/epam/windriver/hub/FrontController.java:87-112 | the outbound request keeps the inbound method and headers, carries the body with all CR/LF removed, and targets `TargetUri`; it fails iff the session header is absent |
| FrontController.RegisterMessageNamesNode | src/main/java/com/epam/windriver/hub/FrontController.java:72 | the message is `"Node from ["`, then the node URL, then `"] has been registered"`, and is 32 characters longer than the URL |
| FrontController.RegisterMessageInjective | src/main/java/com/epam/windriver/hub/FrontController.java:72 | distinct node URLs give distinct registration messages |
| FrontController.SweepIdempotent | src/main/java/com/epam/windriver/hub/FrontController.java:45-60 | sweeping again with the same probe answers removes nothing more |
| FrontController.SweepIsolatesEntries | src/main/java/com/epam/windriver/hub/FrontController.java:48-59 | whether an entry survives depends only on its own probe's answer, not on what other nodes answer |
| FrontController.RegisteredNodeIsTarget | src/main/java/com/epam/windriver/hub/FrontController.java:69-73 | a node that answers healthy at registration is the forward target of its new session, with the path appended |
| FrontController.EvictedSessionTargetsNull | src/main/java/com/epam/windriver/hub/FrontController.java:119-122 | once a sweep evicts a session's node, requests for that session target `"null"` followed by the path |
| FrontController.RegisterThenLoseNode | src/main/java/com/epam/windriver/hub/FrontController.java:65-83 | registering a node that answers `"status: OK"` lists exactly that node; once it fails, the listing is empty and its session targets `"null"` + path |
| BodyReader.StripLineBreaks | src/main/java/com/epam/windriver/hub/FrontController.java:90-96 | the flattened body holds no CR or LF and is no longer than the input |
| BodyReader.StripAppend | src/main/java/com/epam/windriver/hub/FrontController.java:94-95 | flattening two texts one after the other equals flattening their concatenation |
| BodyReader.StripNoBreaks | src/main/java/com/epam/windriver/hub/FrontController.java:90-96 | a body without line breaks is forwarded unchanged |
| BodyReader.NextLine | src/main/java/com/epam/windriver/hub/FrontController.java:94 | `readLine` returns null only at the end of input; otherwise it returns a line without CR/LF, and the text it consumes is that line followed by exactly one terminator (`\n`, `\r` or `\r\n`, never splitting a CRLF pair), or by none only when the line reaches the end of input; the line is the flattened text up to the next line |
| BodyReader.Lines | src/main/java/com/epam/windriver/hub/FrontController.java:92-96 | no line that `readLine` returns holds a break, and the lines joined in order equal the flattened remaining text |
| BodyReader.ReadBody | src/main/java/com/epam/windriver/hub/FrontController.java:90-96 | the loop that appends each line `readLine` returns, until it returns null, leaves the body equal to the inbound text with every CR and LF dropped and all other characters in order |
| Routing.TargetDependsOnlyOnSessionHeader | src/main/java/com/epam/windriver/hub/FrontController.java:119-122 | two requests whose `windriver_sessionId` header is the same, or absent from both, get the same target, whatever their other headers |
| Routing.TargetUri | src/main/java/com/epam/windriver/hub/FrontController.java:119-122 | missing header: failure; known id: node URL + path; unknown id: `"null"` + path |
| Routing.TargetEndsWithPath | src/main/java/com/epam/windriver/hub/FrontController.java:121 | the request path is always the unchanged tail of the target; nothing (such as a query string) follows it |
| Routing.UnknownSessionLikeNullNode | src/main/java/com/epam/windriver/hub/FrontController.java:121 | an unknown session gives the same target as a session whose node URL is the text `"null"` |

## Left out

- Outbound HTTP: the probe GET is the oracle argument `probe`. The forward `exchange` is not modelled. `Intercept` returns the request it would send. Relaying the node's response unchanged, and the exceptions `exchange` raises, are outside the model.
- HTTP status handling: any probe exception, whatever the status, is the single outcome `Failed`.
- The probe oracle is a function of the probe URL. Two entries with the same node URL therefore get the same answer within one sweep, while the real network may answer them differently.
- Concurrency: the concurrent map's weakly consistent iteration and the interleaving of concurrent requests are not modelled. The table is a sequential `map`. The sweep iterates a snapshot of the key set in an arbitrary order.
- UUID generation: the id is the `freshId` argument. Uniqueness of generated ids is not modelled, but the overwrite `put` would do is.
- Hub.Intercept: header collection is modelled as an unchanged `map`. How the servlet collapses repeated headers, and how header names are matched case-insensitively, are not modelled.
- Hub.Intercept: `new URI(...)` rejecting malformed target text is not modelled. `HttpMethod.resolve` is not modelled either: the method is passed through as text.
- I/O failures while reading the body (rethrown by the reader loop) are not modelled: the body is given as text.
- A probe that never returns is not modelled: the oracle always answers `Failed` or `Responded`, while the source sets no timeout, so a node that never answers blocks the sweep and the registration or listing that runs it.
- Routing.TargetUri: header names are compared exactly, while the servlet's `getHeader` ignores case; a request carrying the header as `windriver_sessionid` is routed by the source but fails with `MissingSessionHeader` in the model.
- Logging, Spring wiring, the `RestTemplate` bean, `main` and JSON serialisation of the reply maps have no behavioural effect on the table and are not modelled.
