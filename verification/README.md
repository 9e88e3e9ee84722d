# stratumproxy: the client-to-server relay

stratumproxy is a TLS proxy for the Stratum mining protocol. Each session
has two legs. The server-to-client leg copies bytes. The client-to-server leg,
`processAndForwardClientData`, reads the client's stream line by line. It
forwards each line to the pool with one `"\n"`. The exception is a line that
contains the substring `mining.authorize`. That line is decoded into a
`MiningAuthorizeMessage` (`params`, `id`, `method`). Its first two params are
overwritten with the proxy's configured user and password. The message is
re-encoded and sent in place of the original.

This project models that leg.

- `strings.dfy` (module `Strings`) holds the substring test. It is a scanning
  function proved to hold exactly when there is an index where the pattern
  occurs.
- `relay.dfy` (module `ClientRelay`) holds the message record `Msg` and the
  per-line decision `Transform`. `Transform` gives one of four results:
  untouched, undecodable (forwarded verbatim), rewritten, or index fault.
- `Run` is the loop written as a specification. It folds over the input lines
  and yields a `Trace`: the writes that reached the server, the loop's own log
  events, and whether a panic ended the loop.
- `Step` is one iteration of that loop (main.go:139-170). It logs what the
  branch logs, then hands the line's text to `Write`.
- `Write` is one `fmt.Fprintf` to the server (main.go:149-152, 163,
  166-169). The text is delivered if the write succeeds. Otherwise a failure
  is logged on the passthrough and decode-failure branches, and silently
  dropped on the rewrite branch.
- `ProcessAndForwardClientData` is the loop itself, written imperatively. It
  overwrites the decoded message's first two params one after the other, as
  main.go:160-161 do. It is proved equal to `Run`.

Three parts of the environment are parameters.

- `JsonCodec` stands in for `encoding/json`. It has two total function values:
  `unmarshal` gives `None` on a decode error, and `marshal` encodes the three
  fields.
- `accepts(i)` says whether the write for line `i` succeeded.
- `Credentials` holds the configured replacement user and password.

Three behaviours of the code shape the model:

- `params[0]` is replaced wholesale; no `.suffix` is kept (`IdentityDiscarded`).
- The trigger is a substring test for `mining.authorize` on the raw line.
  There is no submit or subscribe handling (`TriggerIsSubstring`).
- `Params[0]` and `Params[1]` are indexed without a length check. Fewer than
  two params panics, and the recover in `handleClient` ends the session
  (`ShortParamsFault`, `FaultEndsTheLoop`).

## Model

| member | source | states |
|---|---|---|
| `Strings.Contains` | stratumproxy/cmd/stratumproxy/main.go:145 | the trigger test is true exactly when the pattern occurs at some index of the line |
| `Strings.ContainsEmbedded` | stratumproxy/cmd/stratumproxy/main.go:145 | a line that carries the trigger anywhere, whatever surrounds it, passes the test |
| `ClientRelay.Substitute` | stratumproxy/cmd/stratumproxy/main.go:159-161 | the rewritten message has `params[0]` = configured user, `params[1]` = configured password, the same length, the same later params, `id` and `method` |
| `ClientRelay.PassthroughUndecoded` | stratumproxy/cmd/stratumproxy/main.go:164-170 | a line without the trigger is written as it is plus exactly one `"\n"`, and its result does not depend on the codec, so it is never decoded |
| `ClientRelay.UndecodableVerbatim` | stratumproxy/cmd/stratumproxy/main.go:146-154 | a trigger line that fails to decode is written verbatim plus `"\n"`, not re-encoded |
| `ClientRelay.AuthorizeRewritten` | stratumproxy/cmd/stratumproxy/main.go:156-163 | a decoded trigger line with two or more params is written as `marshal` of `[user, password] + params[2..]` with the same `id` and `method`, plus `"\n"` |
| `ClientRelay.ShortParamsFault` | stratumproxy/cmd/stratumproxy/main.go:160-161 | a decoded trigger line with fewer than two params, including none, faults and yields no output text |
| `ClientRelay.TriggerIsSubstring` | stratumproxy/cmd/stratumproxy/main.go:145-163 | a decodable line with `mining.authorize` anywhere in its text and two or more params is rewritten, whatever its `method` field holds |
| `ClientRelay.IdentityDiscarded` | stratumproxy/cmd/stratumproxy/main.go:160-161 | two messages that differ only in their first two params are rewritten to the same message, so no part of the old identity survives |
| `ClientRelay.OnlyDecodedFieldsSurvive` | stratumproxy/cmd/stratumproxy/main.go:19-23 | two trigger lines that decode to the same message are handled identically, so keys other than `params`, `id` and `method` are dropped |
| `ClientRelay.Run` | stratumproxy/cmd/stratumproxy/main.go:138-171 | no more writes reach the server than there are input lines, and a panic names a line whose result is an index fault |
| `ClientRelay.StopsAtFirstFault` | stratumproxy/cmd/stratumproxy/main.go:138-171 | the loop reaches end of input if and only if no line faults; when it panics, it panics at the first faulting line |
| `ClientRelay.WritesNeverStopTheLoop` | stratumproxy/cmd/stratumproxy/main.go:148-169 | how the loop ends does not depend on which writes failed |
| `ClientRelay.FaultEndsTheLoop` | stratumproxy/cmd/stratumproxy/main.go:105-113 | after a fault, more input changes neither the output, the log, nor the status |
| `ClientRelay.DeliversAcceptedInOrder` | stratumproxy/cmd/stratumproxy/main.go:138-171 | for any pattern of failed writes, the server receives exactly the transformed texts of the handled lines whose writes succeeded, in input order; a failed write loses only its own line and the loop goes on |
| `ClientRelay.DeliveredAllAccepted` | stratumproxy/cmd/stratumproxy/main.go:138-171 | when every write succeeds, the in-order delivery of the first n handled lines is exactly one transformed text per line, line i's at position i |
| `ClientRelay.ForwardsInOrder` | stratumproxy/cmd/stratumproxy/main.go:138-171 | when all writes succeed, the server receives exactly one transformed line per handled input line, in input order, and nothing from the faulting line on |
| `ClientRelay.WriteFailureReporting` | stratumproxy/cmd/stratumproxy/main.go:148-169 | for each handled line, a write failure is logged if and only if the write failed and the line was not rewritten |
| `ClientRelay.ProcessAndForwardClientData` | stratumproxy/cmd/stratumproxy/main.go:134-172 | the loop's output, log and final status are exactly those of `Run` on the same lines |

## Left out

- Flag parsing, certificate loading, the listener and its accept loop
  (main.go:35-77). These are configuration and network I/O. The credentials
  are a parameter.
- The upstream TLS dial, which skips certificate verification, and the deferred
  closes (main.go:80-93). These are network plumbing.
- The goroutines, the `done` channel, `sync.Once` and `recover`
  (main.go:95-131). Their effect on this leg is modelled as one fact: a panic
  ends the loop for good (`Panicked`, `FaultEndsTheLoop`). Exactly-once
  shutdown and the shared fate of the two legs are not modelled.
- The server-to-client `io.Copy` (main.go:124). It is a library byte copy.
- The random 10-19 ms delay before each line (main.go:141-143). It has no
  effect on the output.
- `encoding/json` (main.go:147, 162). It is the `JsonCodec` parameter. Go's
  distinction between a nil `Params`, which encodes as `null`, and an empty
  one is not kept; both are the empty sequence. A nil `Params` only reaches
  `marshal` through a fault, which writes nothing.
- `bufio.Scanner` line splitting (main.go:135-139), including its 64 KiB token
  limit and `\r` stripping. The input is already a sequence of lines. A scan
  error ends the input like end-of-file does.
- `fmt.Fprintf` uses the line as its format string (main.go:149, 163, 166).
  The model writes the string as it is. This is accurate only for lines
  without `%`.
- ProcessAndForwardClientData: a failed write delivers nothing. A partial
  write of some bytes is not modelled.
- Log output (`log.Printf`). Only the loop's own events are kept, as
  `LogEvent`s keyed by line number: a decode failure, the original params, and
  a write failure. The client address, the error text and the messages from
  `handleClient` are not kept.
- Lines are sequences of characters. `scanner.Text()` yields byte strings,
  which may be invalid UTF-8. The trigger is ASCII, so the substring test
  gives the same answer either way; the codec sees whatever string the
  line is.
