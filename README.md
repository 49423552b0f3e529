# timer-cli in Dafny

This project models the core of timer-cli. timer-cli is a single countdown timer kept by a small server (`timersock`). A command-line client (`timer`) talks to that server over a Unix socket, using an HTTP/1.1-shaped text protocol.

The model covers these parts:

- **Timer engine** (`TimerState` in `src/bin/timersock.rs`). One mutable record holds three things: the whole seconds left, a run flag, and the instant of the last reconciliation. There is no ticking thread. Instead, every operation except `start` first calls `refresh`, which folds the whole seconds elapsed since that instant into the remaining time. The subtraction saturates at zero, and reaching zero stops the timer. The model has two layers:
  - the class `TimerEngine.TimerState`, whose methods update the three fields in place;
  - pure functions (`Refreshed`, `Started`, `Paused`, `Resumed`, `Extended`, `SnapshotOf`) that specify those methods.

  The properties are proved about the functions in `TimerProperties`. The main one is the invariant "running ⇒ time left > 0". Clock readings are explicit `Instant` arguments, in nanoseconds, so the truncation of `as_secs()` to whole seconds is visible.
- **`format_hms`**: `Hms.FormatHms` zero-pads hours, minutes and seconds to at least two digits, and hours can be any width. `Hms.ParseHms` is its inverse and states what the text means.
- **The router** (`handle_request`): `TimerService.Handle` is the pure step from a request and a state to a response and a new state. `TimerService.HandleRequest` performs that step on a `TimerState`. Each found route runs one engine operation and then `snapshot`, all in one step, because the write lock is held across both. An unknown route gets 404. A body that cannot be read or decoded gets 400, with a message naming which step failed. Neither touches the timer. `ServiceProperties.ServeAll` runs requests one after another in lock order.
- **Client text handling** (`src/main.rs`):
  - the subcommand-to-request table;
  - how `send` frames a request, including `Content-Length` as the body's UTF-8 byte length;
  - how `send` splits the response at the first CRLF and at the first blank line;
  - the status-code gate;
  - `parse_status_code`, modelled over Rust's `split_whitespace` with Unicode whitespace and `str::parse::<u16>`, which accepts a leading `+` and leading zeros.
- **End to end** (`EndToEnd`): each subcommand reaches its engine operation. `Toggle` sends `POST /toggle`, which has no route and gets 404.

Some things the code does that a reader might not expect:

- A refresh that folds in whole seconds restamps the timer with `now`, so the sub-second remainder is thrown away (`RemainderDiscarded`). So a timer that is polled often counts down no faster than wall-clock time, and possibly slower (`DecayAtMostElapsed`).
- A refresh with less than one second elapsed leaves the stamp alone, so fractions from such refreshes still add up (`FractionAccumulates`).
- `extend` keeps the run flag that its own refresh left. So a running timer that this refresh brings to zero ends stopped, with the added time on it (`ExtendAdds`).
- The client rejects a response that has no header lines when its body holds no carriage return, as a JSON body does not. The blank line is taken as the end of the status line, and no second blank line follows (`HeaderlessResponseRejected`). A headerless response whose body does contain a blank line is split there instead.

## Model

| member | source | states |
|---|---|---|
| `Text.Pad2` | src/bin/timersock.rs:95 | `{:02}`: at least two digits, exactly two below 100, the same number as the decimal rendering for 10 and above, and reads back as the input |
| `Text.ParseU16` | src/main.rs:144 | `parse::<u16>`: a token is accepted only if it is an optional `+` followed by one or more ASCII digits, and it then reads as their decimal value |
| `Text.ParseU16Padded` | src/main.rs:144 | a leading `+` and any number of leading zeros change nothing: the token reads as n when n ≤ 65535 and is refused above |
| `Text.ParseU16Show` | src/main.rs:144 | `parse::<u16>` accepts the decimal rendering of every n ≤ 65535 as n and rejects it for n > 65535 |
| `Text.ParseU16RejectsNonDigit` | src/main.rs:144-145 | a token with a non-digit (other than one leading `+`) is not a u16 |
| `Text.Words` | src/main.rs:137 | every `split_whitespace` token is non-empty and free of whitespace (which tokens come out is stated by `WordsLayout`) |
| `Text.WordsLayout` | src/main.rs:137 | for any text made of leading whitespace, tokens separated by non-empty runs of whitespace, and trailing whitespace, `split_whitespace` gives exactly those tokens in order |
| `Text.WordsUnwords` | src/main.rs:137 | `split_whitespace` gives back exactly the tokens that were joined by spaces |
| `Text.Utf8Len` | src/main.rs:101 | the byte length `body.len()`, defined as the sum of each character's UTF-8 width (1 below U+0080, 2 below U+0800, 3 below U+10000, otherwise 4); the contract bounds it between the character count and four times it, zero only for the empty body |
| `Text.Utf8LenConcat` | src/main.rs:101 | the byte length of a concatenation is the sum of the parts' byte lengths |
| `Text.Utf8LenAscii` | src/main.rs:101 | an ASCII text has exactly one byte per character |
| `Text.SplitOnce` | src/main.rs:119-126 | `split_once`: before + separator + after is the input, the separator occurs nowhere earlier, and there is no result exactly when the separator does not occur |
| `Hms.Split` | src/bin/timersock.rs:92-94 | hours·3600 + minutes·60 + seconds is the input, with minutes and seconds below 60 |
| `Hms.SplitUnique` | src/bin/timersock.rs:92-94 | that split is the only one with minutes and seconds below 60 |
| `Hms.FormatHms` | src/bin/timersock.rs:91-96 | at least 8 characters with colons at fixed places from the end, and exactly 8 below 100 hours |
| `Hms.FormatHmsRoundTrip` | src/bin/timersock.rs:91-96 | reading the rendered text back gives exactly the split fields |
| `Hms.FormatHmsSemantics` | src/bin/timersock.rs:91-96 | the fields read back from the text add up to the input, with minutes and seconds below 60 |
| `Hms.FormatHmsExamples` | src/bin/timersock.rs:91-96 | 0 → `00:00:00`, 3661 → `01:01:01`, 86399 → `23:59:59`, 90000 → `25:00:00` |
| `TimerEngine.SaturatingSub` | src/bin/timersock.rs:50 | `saturating_sub`: exact when it fits, otherwise 0 |
| `TimerEngine.SaturatingAdd` | src/bin/timersock.rs:78 | `saturating_add`: exact below the u64 maximum, otherwise the maximum |
| `TimerEngine.Default` | src/bin/timersock.rs:27-35 | `TimerState::default()`; its invariant is `DefaultInv` |
| `TimerEngine.ElapsedSecs` | src/bin/timersock.rs:44-45 | whole seconds since the stamp: e·10⁹ ≤ now − stamp < (e+1)·10⁹ for a later `now`, and 0 for an earlier one (`duration_since` saturates) |
| `TimerEngine.Refreshed` | src/bin/timersock.rs:38-55 | `refresh` on values; what it does is stated by `RefreshRunning`, `RefreshSubSecond`, `RefreshStopped`, `RefreshSaturates` and `RefreshInv` |
| `TimerEngine.Started` | src/bin/timersock.rs:57-61 | `start` on values; stated by `StartOverwrites` and `StartInv` |
| `TimerEngine.Paused` | src/bin/timersock.rs:63-66 | `pause` on values; stated by `PauseKeepsTime`, `PauseInv` and `PauseFreezesDecay` |
| `TimerEngine.Resumed` | src/bin/timersock.rs:68-74 | `resume` on values; stated by `ResumeRunFlag`, `ResumeFromZero` and `ResumeInv` |
| `TimerEngine.Extended` | src/bin/timersock.rs:76-79 | `extend` on values; stated by `ExtendAdds`, `ExtendNeverStarts` and `ExtendInv` |
| `TimerEngine.SnapshotOf` | src/bin/timersock.rs:81-88 | `snapshot` on values: the refreshed time, its `format_hms` text and the refreshed flag; stated by `SnapshotInv` and `RefreshIdempotent` |
| `TimerEngine.TimerState.constructor` | src/bin/timersock.rs:27-35 | the default state: 0 s, not running, stamped now; satisfies the invariant |
| `TimerEngine.TimerState.Refresh` | src/bin/timersock.rs:38-55 | the fields become `Refreshed(old state, now)`; the invariant is kept |
| `TimerEngine.TimerState.Start` | src/bin/timersock.rs:57-61 | the fields become `Started(seconds, now)` whatever they were; the invariant is established |
| `TimerEngine.TimerState.Pause` | src/bin/timersock.rs:63-66 | the fields become `Paused(old state, now)`; the invariant is kept |
| `TimerEngine.TimerState.Resume` | src/bin/timersock.rs:68-74 | the fields become `Resumed(old state, now)`; the invariant is kept |
| `TimerEngine.TimerState.Extend` | src/bin/timersock.rs:76-79 | the fields become `Extended(old state, seconds, now)`; the invariant is kept |
| `TimerEngine.TimerState.Snapshot` | src/bin/timersock.rs:81-88 | the state is refreshed and the returned snapshot reports exactly the refreshed state |
| `TimerProperties.RefreshRunning` | src/bin/timersock.rs:44-54 | running with e ≥ 1 whole seconds elapsed: time becomes max(0, time − e), the timer runs exactly when time is left, and the stamp is now |
| `TimerProperties.RefreshSubSecond` | src/bin/timersock.rs:44-48 | running with less than a second elapsed: nothing changes, not even the stamp |
| `TimerProperties.RefreshStopped` | src/bin/timersock.rs:39-42 | not running: time and flag stay the same, and only the stamp moves to now |
| `TimerProperties.RefreshIdempotent` | src/bin/timersock.rs:38-55 | refreshing twice at one instant is the same as refreshing once, so two snapshots at one instant agree |
| `TimerProperties.RefreshSaturates` | src/bin/timersock.rs:50-52 | at least as many seconds elapsed as remain: 0 s left and stopped |
| `TimerProperties.FractionAccumulates` | src/bin/timersock.rs:45-48 | a refresh under a second loses nothing: a later refresh acts as if it had not happened |
| `TimerProperties.RemainderDiscarded` | src/bin/timersock.rs:45-54 | refreshing a 10 s timer at 1.5 s and at 3 s leaves 8 s, but one refresh at 3 s leaves 7 s |
| `TimerProperties.DefaultInv` | src/bin/timersock.rs:27-35 | the default state satisfies the invariant |
| `TimerProperties.RefreshInv` | src/bin/timersock.rs:50-52 | refresh keeps the invariant |
| `TimerProperties.StartInv` | src/bin/timersock.rs:59 | start always yields a state that satisfies the invariant |
| `TimerProperties.PauseInv` | src/bin/timersock.rs:63-66 | pause always yields a stopped state that satisfies the invariant |
| `TimerProperties.ResumeInv` | src/bin/timersock.rs:70-72 | resume keeps the invariant |
| `TimerProperties.ExtendInv` | src/bin/timersock.rs:76-79 | extend keeps the invariant |
| `TimerProperties.SnapshotInv` | src/bin/timersock.rs:81-88 | snapshot keeps the invariant, and a snapshot that says running reports time left |
| `TimerProperties.StartOverwrites` | src/bin/timersock.rs:57-61 | start gives time = s, running exactly when s > 0, stamp = now |
| `TimerProperties.PauseKeepsTime` | src/bin/timersock.rs:63-66 | pause keeps the reconciled time and stops the timer |
| `TimerProperties.ResumeRunFlag` | src/bin/timersock.rs:68-74 | after resume the timer runs exactly when reconciled time is left, and the time is unchanged |
| `TimerProperties.ResumeFromZero` | src/bin/timersock.rs:68-74 | resuming with 0 s reconciled does nothing beyond the refresh and leaves the timer stopped |
| `TimerProperties.ExtendAdds` | src/bin/timersock.rs:76-79 | extend sets time = min(reconciled + n, 2^64 − 1) and keeps the reconciled run flag |
| `TimerProperties.ExtendNeverStarts` | src/bin/timersock.rs:76-79 | extend never starts a stopped timer, and adds to its time exactly (saturating) |
| `TimerProperties.StampMonotone` | src/bin/timersock.rs:38-79 | with a monotonic clock every operation moves the stamp forward but never past now |
| `TimerProperties.StoppedFrozen` | src/bin/timersock.rs:38-42 | any number of refreshes of a stopped timer keep its time and keep it stopped |
| `TimerProperties.PauseFreezesDecay` | src/bin/timersock.rs:38-66 | after pause, no later refresh or snapshot changes the time that was left |
| `TimerProperties.DecayAtMostElapsed` | src/bin/timersock.rs:44-54 | over any run of refreshes the time never goes up, and it drops by at most the whole seconds elapsed since the first stamp |
| `TimerService.BodyOutcome.Message` | src/bin/timersock.rs:135-149 | the 400 message: the `invalid body` prefix exactly for a failed read, and the `expected JSON like {"seconds": 300}` prefix for a failed decode |
| `TimerService.RouteOf` | src/bin/timersock.rs:158-194 | the `match (method, path)` table; stated by `NotFoundUntouched` and `SuccessReportsAfterOp` |
| `TimerService.Handle` | src/bin/timersock.rs:151-198 | one request on values; stated by `SuccessReportsAfterOp`, `BadBodyUntouched`, `NotFoundUntouched`, `StatusCodes` and `HandleInv` |
| `TimerService.HandleRequest` | src/bin/timersock.rs:151-198 | the response and the new state are exactly `Handle` of the request and the old state; the invariant is kept |
| `ServiceProperties.NotFoundUntouched` | src/bin/timersock.rs:194 | an unknown (method, path) gets 404 `route not found`, and the state is unchanged |
| `ServiceProperties.BadBodyUntouched` | src/bin/timersock.rs:135-193 | a body on /start or /extend that cannot be read gets 400 `invalid body`, and one that does not decode gets 400 `expected JSON like …`; either way the state is unchanged |
| `ServiceProperties.SuccessReportsAfterOp` | src/bin/timersock.rs:158-193 | 200 exactly when the route exists and its body (if it reads one) is read and decoded; then the state is the operation followed by a refresh, and the body is the snapshot of that state; otherwise the state is unchanged |
| `ServiceProperties.StatusCodes` | src/bin/timersock.rs:158-194 | the only statuses are 200, 400 and 404 |
| `ServiceProperties.HandleInv` | src/bin/timersock.rs:158-194 | every request keeps the invariant |
| `ServiceProperties.ExtendsAccumulate` | src/bin/timersock.rs:185-193 | extends served in lock order against a stopped timer each add their seconds (saturating), with no lost update, and the timer stays stopped |
| `ServiceProperties.ExtendOneNTimes` | src/bin/timersock.rs:185-193 | N extend(1) requests from the default state leave exactly N seconds, stopped |
| `ServiceProperties.ScenarioStartFive` | src/bin/timersock.rs:164-172 | start(5) then an immediate query shows 5 s running; a query 5 s or more later shows 0 s, stopped |
| `ServiceProperties.ScenarioStartZero` | src/bin/timersock.rs:164-172 | start(0) shows 0 s, stopped, now and later |
| `ServiceProperties.ScenarioBadStart` | src/bin/timersock.rs:135-172 | POST /start with an undecodable body gets 400, and the state is unchanged |
| `ServiceProperties.ScenarioNope` | src/bin/timersock.rs:194 | GET /nope gets 404, and the state is unchanged |
| `Client.SecondsJson` | src/main.rs:56 | the `{"seconds":n}` body is ASCII and is 12 characters longer than the digits of n |
| `Client.CommandRequest` | src/main.rs:46-81 | the subcommand table; stated by `CommandPayloads`, `CommandRequestInjective` and `CommandWire` |
| `Client.RequestText` | src/main.rs:95-107 | the request `send` formats; stated by `RequestTextLines` and `RequestFraming` |
| `Client.SendText` | src/main.rs:95-107 | `payload.unwrap_or_default()` followed by the formatting; stated by `CommandWire` |
| `Client.ReadResponse` | src/main.rs:119-130 | the checks `send` makes on the response, in order; stated by `ReadResponseRoundTrip` and `HeaderlessResponseRejected` |
| `Client.ContentHeader` | src/main.rs:95-103 | the content headers are empty exactly when the body is empty |
| `Client.ParseStatusCode` | src/main.rs:136-147 | no tokens exactly when the version is missing; one token exactly when the code is missing; with two or more tokens, success exactly when the second token parses as a u16, and then its value |
| `ClientProperties.ContentHeaderLines` | src/main.rs:95-103 | the content headers are the CRLF-terminated `Content-Type` and `Content-Length` lines, and there are none for an empty body |
| `ClientProperties.RequestTextLines` | src/main.rs:105-107 | the request text is its header lines, each ending in CRLF, then a blank line, then the body |
| `ClientProperties.RequestFraming` | src/main.rs:95-107 | splitting the request at its first CRLF gives the request line; splitting at its first blank line gives exactly the body; `Content-Length` is the body's UTF-8 byte length |
| `ClientProperties.SplitAfterLine` | src/main.rs:119-121 | the status line is everything before the first CRLF |
| `ClientProperties.BlankLineSplit` | src/main.rs:124-126 | after non-empty header lines the first blank line ends the headers, and the body is everything after it |
| `ClientProperties.StatusLineRoundTrip` | src/main.rs:136-146 | whatever the surrounding whitespace and however many tokens follow, a second token written as a `+`, leading zeros and the digits of n reads as n; above 65535 it is an invalid code |
| `ClientProperties.StatusLineSpaced` | src/main.rs:136-146 | the status line a server writes, `version SP code SP reason`, gives its code, or an invalid code above 65535 |
| `ClientProperties.StatusLineTokens` | src/main.rs:137-143 | version, code and reason split into the version token, the code token, and the reason's tokens |
| `ClientProperties.StatusLineBadCode` | src/main.rs:144-145 | a second token that is not a u16 is an invalid code, whatever the surrounding whitespace |
| `ClientProperties.StatusLineTooShort` | src/main.rs:138-143 | fewer than two tokens fails, naming the missing one |
| `ClientProperties.StatusLineOk` | src/main.rs:136-147 | `HTTP/1.1 200 OK` gives 200 |
| `ClientProperties.StatusLineNotFound` | src/main.rs:136-147 | `HTTP/1.1 404 Not Found` gives 404 |
| `ClientProperties.StatusLineNonDigits` | src/main.rs:144-145 | `HTTP/1.1 abc OK` is an invalid code |
| `ClientProperties.StatusLineTooLarge` | src/main.rs:144-145 | `HTTP/1.1 65536 OK` is an invalid code |
| `ClientProperties.StatusLineNoReason` | src/main.rs:136-147 | `HTTP/1.1 200`, with no reason phrase, gives 200 |
| `ClientProperties.StatusLineLoose` | src/main.rs:136-147 | ` HTTP/1.1\t\t+0200 OK `, with tabs, surrounding blanks, a `+` and a leading zero, gives 200 |
| `ClientProperties.StatusLineVersionOnly` | src/main.rs:141-143 | `HTTP/1.1` alone is a missing code |
| `ClientProperties.ReadResponseRoundTrip` | src/main.rs:119-130 | a framed response with header lines gives its body for a 2xx code; any other code is a server-status error carrying code and body, raised before JSON decoding |
| `ClientProperties.HeaderlessResponseRejected` | src/main.rs:119-126 | a response whose status line parses but has no header lines, followed by a body without CR, fails with a missing body separator whatever the status |
| `ClientProperties.CommandPayloads` | src/main.rs:46-81 | only Start and Extend send a body, and it is `{"seconds":n}` with their n |
| `ClientProperties.SecondsJsonInjective` | src/main.rs:56 | different second counts give different bodies |
| `ClientProperties.CommandRequestInjective` | src/main.rs:46-81 | different subcommands send different requests |
| `ClientProperties.SecondsBodyLength` | src/main.rs:95-103 | an empty body sends no content headers; a seconds body's byte length is its digit count plus 12 |
| `ClientProperties.CommandWire` | src/main.rs:46-107 | for each subcommand the text written names its method and path before the first CRLF, carries exactly its `{"seconds":n}` payload (or nothing) after the first blank line, and announces a seconds body with Content-Length = digits + 12 |
| `EndToEnd.CommandsReachEngine` | src/main.rs:46-81 | every subcommand except Toggle reaches its own engine operation and gets 200 with the resulting snapshot; Toggle gets 404 and the timer is untouched |

## Left out

- Socket lifecycle: removing a stale socket, `UnixListener::bind`, the accept loop, `tokio::spawn` and hyper's `serve_connection` (src/bin/timersock.rs:200-228). These are I/O and async runtime plumbing.
- The `RwLock`: every route holds the write guard across its operation and snapshot. So the model executes one atomic step per request, with requests in lock order (`ServeAll`). The asynchronous lock itself is not modelled.
- HTTP parsing on the server side is done by hyper. The router takes the method and the URI path as given.
- JSON:
  - `parse_seconds_body` is reduced to its outcome: the decoded seconds, a failed read or a failed decode.
  - Each 400 message keeps its fixed prefix (`invalid body` or `expected JSON like {"seconds": 300}`), but not the error text that follows it.
  - The serialization-failure 500 path of `json_response` is library behaviour and is not modelled.
  - Responses carry the snapshot as a value, not as JSON text.
  - On the client, the body of `{"seconds":n}` is written out in serde_json's compact form. Decoding the snapshot from JSON is not modelled.
- The clock: `Instant::now()` becomes an `Instant` argument in nanoseconds. Each engine method takes one reading, so the two readings inside `resume` (src/bin/timersock.rs:69 and 72) are collapsed into one. The router takes one reading for the operation and one for the snapshot.
- The server's decoding of the client's body: the end-to-end lemma takes the server to read the client's `{"seconds":n}` as the seconds n (`EndToEnd.Delivered`). serde_json's decoding is not modelled, so this is not proved.
- Client I/O: clap argument and environment parsing, connecting to the `UnixStream`, writing, reading and flushing, and `print_snapshot`.
- Toggle: the server has no toggle operation. The model does not add one, and `POST /toggle` gets 404.
- Fixed-width integers: `time_left_secs` and request seconds are the subset type `u64`, and `Instant` is an unbounded `nat`. Elapsed seconds cannot exceed what a `Duration` holds on any real clock.
