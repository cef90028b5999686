# PubSub broker core in Dafny

A model of the TCP publish/subscribe broker in `server/`. A client connects and sends one request.

- `pub <topic> <data>` hands `<data>` to the topic's channel once per current listener. The listeners' goroutines share that channel, so which listener receives which copy is not fixed.
- `sub <topic>` registers a listener. The client then receives an acknowledgement followed by the topic's messages until the connection ends.
- Every outcome of a request ends with one JSON "problem detail" the handler writes back. Errors that are not problem details are redacted to `internal_server_error`.

The model has six files:

- `wrappers.dfy`: `Option` (Go's nil-able values) and `Result`.
- `gostrings.dfy` (`GoStrings`): the parts of Go's `strings` package the broker uses.
  - `TrimSpace` uses the `unicode.IsSpace` set.
  - `Split` and `SplitN` use a one-character separator, and `Join` is included.
  - Each has a contract, plus round-trip lemmas (`SplitJoin`, `JoinInjective`) and padding lemmas.
- `problems.dfy` (`Problems`): `problemDetail` and its kinds, and `Error()`.
  - Go `error` values are a datatype. nil is `None`, and `errors.Wrap`/`errors.Cause` follow `github.com/pkg/errors`.
  - The redaction in `writeErr` is `Redact`.
  - `Encode` is the JSON `encoding/json` writes, trailing newline included, for strings that need no escaping.
- `commands.dfy` (`Commands`): the request grammar of `handleConn` as a pure function. Each branch is characterised by an if-and-only-if lemma.
- `subscription.dfy` (`Subscription`): the acknowledgement string.
  - The select loop of `subscribe` is a fold (`Dispatch`) over the events it receives.
  - `RunDispatch` is the same loop written as a `while` loop and proved equal to the fold.
- `broker.dfy` (`Broker`): `Topic` and `Server` are classes. The registry is a `map<string, Topic>` of object references.
  - `GetTopics`, `AddListener`, `RemoveListener`, `Publish`, `Subscribe` and `HandleConn` update it in place.

Behaviour the model reproduces as the code has it:

- An unknown operation gets an `invalid_command` problem. `invalid_operation` is declared but never used.
- For `sub`, the handler passes only the second piece of the request to `subscribe`. So `sub a b` subscribes to `a` alone (`Commands.ExampleTwoTopics`), although server/server_test.go:24-28 expects `a, b`.
- The request is split at single spaces. So `sub  a` subscribes to the empty topic name (`Commands.SubscribeDoubleSpace`).
- A successful `pub` ends with `writeErr` of a nil error. That writes the `internal_server_error` problem (`Problems.RedactNil`, `Broker.Server.HandleConn`).
- Publishing to a topic with no listeners succeeds and sends nothing.
- `removeListener` deletes by the topic's name.
  - A listener that holds a reference to a topic dropped and registered again can therefore delete the newer topic (`Broker.StaleRelease`).
  - For this reason the registry holds object references, not counts.
- The `topic` struct declared in server/server.go:19-22 (`subs`, `ch`) disagrees with its uses in operations.go and utils.go (`name`, `listeners`, `msgChan`). The model follows the uses.
- Likewise, `subscribe` is called in server/server.go:104 with a context and one name, but is declared in server/operations.go:37 with a read channel and a list of names. The model keeps the declaration's list for the acknowledgement and gives the handler's call one name.

Each registry operation is treated as one atomic step.

- A topic's channel is a sequence `sent` of the messages handed to it.
- The reader and writer goroutines of a subscription are modelled by an event trace.
- The outcome of writing the acknowledgement is a parameter `ackErr`.

## Model

| member | source | states |
|---|---|---|
| GoStrings.IsSpace | server/server.go:73 | The white space TrimSpace removes: the characters of Go's unicode.IsSpace. |
| GoStrings.TrimLeft | server/server.go:73 | The result is a suffix of the input. What was dropped is all white space, and the result does not start with white space. |
| GoStrings.TrimRight | server/server.go:73 | The result is a prefix of the input. What was dropped is all white space, and the result does not end with white space. |
| GoStrings.TrimSpace | server/server.go:73 | The trimmed request is no longer than the input and has no white space at either end. |
| GoStrings.TrimLeftPadded | server/server.go:73 | Leading white space before a text that starts with a non-space is exactly what TrimLeft removes. |
| GoStrings.TrimRightPadded | server/server.go:73 | Trailing white space after a text that ends with a non-space is exactly what TrimRight removes. |
| GoStrings.TrimSpacePadded | server/server.go:73 | A text with no white space at either end, surrounded by white space, trims back to itself. |
| GoStrings.TrimLeftRemoves | server/server.go:73 | Every string is some white space followed by its left-trimmed form. |
| GoStrings.TrimRightRemoves | server/server.go:73 | Every string is its right-trimmed form followed by some white space. |
| GoStrings.TrimSpaceDecomposes | server/server.go:73 | Every string is its trimmed form surrounded by white space. |
| GoStrings.TrimSpaceIdempotent | server/server.go:73 | Trimming twice gives the same result as trimming once. |
| GoStrings.TrimSpaceIgnoresPadding | server/server.go:73 | Adding white space around a request does not change the trimmed request. |
| GoStrings.IndexOf | server/server.go:74 | Returns None exactly when the character is absent. Otherwise returns the index of its first occurrence. |
| GoStrings.IndexOfAfter | server/server.go:74 | In `a c b`, with no `c` in `a`, the first `c` is at index `|a|`. |
| GoStrings.Split | server/server.go:94 | A split always has at least one piece, even for the empty string. |
| GoStrings.SplitN | server/server.go:80 | SplitN has between one and n pieces. |
| GoStrings.SplitStep | server/server.go:94 | Split cuts at the first separator: the separator-free text before it, then the split of the rest. |
| GoStrings.SplitNStep | server/server.go:80 | SplitN with more than one piece left cuts at the first separator in the same way, with one piece fewer for the rest. |
| GoStrings.SplitFree | server/server.go:94 | No piece of a split contains the separator. |
| GoStrings.SplitNFree | server/server.go:80 | Every piece of SplitN but the last is separator-free. |
| GoStrings.JoinSplitN | server/server.go:80 | Joining the pieces of SplitN with the separator gives the string back. |
| GoStrings.SplitNTwo | server/server.go:74 | SplitN into two gives the string itself when it has no separator, and otherwise the text before and after the first separator. |
| GoStrings.SplitAt | server/server.go:94 | Splitting `a sep b`, with no separator in `a`, gives `a` followed by the pieces of `b`. |
| GoStrings.SplitNAt | server/server.go:80 | SplitN of `a sep b`, with no separator in `a`, gives `a` followed by SplitN of `b` with one piece fewer. |
| GoStrings.JoinInjective | server/server.go:94 | Two lists of separator-free pieces that join to the same string are equal. |
| GoStrings.SplitJoin | server/server.go:94 | Split undoes Join when no piece contains the separator. |
| GoStrings.JoinSplit | server/server.go:94 | Joining the pieces of a split with the separator gives the string back. |
| GoStrings.Join | server/operations.go:70 | Go's strings.Join: the elements with the separator between consecutive ones. JoinCons, JoinAppend, JoinSplit and SplitJoin state its properties. |
| GoStrings.JoinAppend | server/operations.go:70 | Joining one more element appends the separator and that element. |
| Problems.ProblemText | server/errors.go:22-24 | Error() of a problem loses nothing: when the kind has no colon, splitting at the first colon followed by a space gives back the kind and the detail. |
| Problems.ErrorText | server/server.go:113 | Error() of each kind of error, as the `%s` in the handler's wrap prints it. A wrapped error prints its context, a colon and a space, then its inner error. |
| Problems.ErrorTextEndsWithCause | server/server.go:113 | Error() of an error ends with Error() of its root cause: wrapping only adds context in front. |
| Problems.Wrap | server/server.go:113 | Wrapping nil gives nil. Wrapping an error gives a wrapped error whose inner error is the original. |
| Problems.RootCause | server/errors.go:28 | The root cause is never a wrapped error, and an unwrapped error is its own cause. |
| Problems.Cause | server/errors.go:28 | The cause is nil exactly when the error is nil. |
| Problems.Redact | server/errors.go:26-35 | When the error's cause is a problem detail, that problem is sent unchanged. For nil and for every other cause, `{internal_server_error, ""}` is sent. |
| Problems.RedactKeepsProblems | server/errors.go:26-35 | A problem detail reaches the client unchanged, however many contexts were wrapped around it. |
| Problems.CauseThroughWraps | server/errors.go:28 | Any number of wraps leave the cause unchanged. |
| Problems.RedactThroughWraps | server/server.go:113 | Context added by wrapping never changes the problem sent to the client. |
| Problems.RedactIdempotent | server/errors.go:30-33 | Redacting a problem that was already redacted gives the same problem. |
| Problems.RedactNil | server/errors.go:30-33 | A nil error, wrapped or not, is sent as `{internal_server_error, ""}`. |
| Problems.RedactHidesFailures | server/errors.go:30-33 | An error whose root cause is not a problem detail is sent as the internal-server-error problem, however it was wrapped. |
| Problems.Encode | server/errors.go:35 | The JSON object written for a problem whose strings need no escaping reads back to the same problem. |
| Problems.EncodeTrimmed | server/errors.go:35 | A reader that trims the line gets `{"type":"<kind>","detail":"<detail>"}` without the trailing newline. |
| Problems.KindsArePlain | server/errors.go:12-32 | The problem kinds the broker sends (`invalid_command`, `topic_does_not_exist`, `internal_server_error`) need no JSON escaping. |
| Commands.Parse | server/server.go:73-111 | Every refused request gets one of the three fixed problems, and its kind is `invalid_command`. |
| Commands.ParseMessage | server/server.go:74-111 | Every refused trimmed request gets one of the three fixed problems. |
| Commands.ProblemsDistinct | server/server.go:83-110 | The three parse problems differ from each other. |
| Commands.FirstPiece | server/server.go:74 | The operation word is the same whether the request is split into 2, into n or at every space. |
| Commands.OperationIs | server/server.go:74-76 | The operation is a given word exactly when the request is that word alone, or that word followed by a space. |
| Commands.ParsedPublishShape | server/server.go:80-90 | A request parsed as publish is `pub`, a space-free topic, a space, and the data. |
| Commands.PublishShapeParses | server/server.go:80-90 | A request of that shape parses as publish of that topic and data. |
| Commands.ParsePublish | server/server.go:78-90 | A request parses as publish exactly when it has that shape, so the data keeps every further space. |
| Commands.ParsedSubscribeShape | server/server.go:94-104 | A request parsed as subscribe is `sub `, then a space-free topic, then nothing or a space. |
| Commands.ShapeSplits | server/server.go:94 | A request of the subscribe shape has operation `sub`, and its second piece is the topic. |
| Commands.SubscribeShapeParses | server/server.go:92-104 | A request of the subscribe shape parses as subscribe to that topic. |
| Commands.ParseSubscribe | server/server.go:92-104 | A request parses as subscribe to a topic exactly when it has the subscribe shape for that topic. |
| Commands.ParseUnknownOperation | server/server.go:106-110 | The operation problem is returned exactly when the request is not `pub` or `sub`, alone or followed by a space. |
| Commands.ParsePublishArity | server/server.go:80-88 | The publish-arguments problem is returned exactly when `pub` is alone, or followed by a single space-free word. |
| Commands.ParseSubscribeArity | server/server.go:94-102 | The subscribe-argument problem is returned exactly when the trimmed request is `sub` alone. |
| Commands.OperationDetailIsPlain | server/server.go:109 | The detail of the unknown-operation problem needs no JSON escaping. |
| Commands.PublishArgsDetailIsPlain | server/server.go:83-86 | The detail of the publish-arguments problem needs no JSON escaping. |
| Commands.SubscribeArgsDetailIsPlain | server/server.go:97-100 | The detail of the subscribe-argument problem needs no JSON escaping. |
| Commands.ParseProblemsArePlain | server/server.go:78-111 | Every problem a refused request is answered with needs no escaping and reads back from its JSON as itself. |
| Commands.ParseIgnoresPadding | server/server.go:73 | White space around a request never changes how it parses. |
| Commands.ExampleUnknownOperation | server/server_test.go:31-35 | `su a` gets the invalid_command problem. |
| Commands.ExampleUnknownOperationReply | server/server_test.go:31-35 | `su a` is refused with the operation problem, and the trimmed line the client reads is `{"type":"invalid_command","detail":"Operation must be 'pub' or 'sub'."}`. |
| Commands.ExampleTwoTopics | server/server.go:104 | `sub a b` subscribes to `a` only. |
| Commands.ExamplePublish | server/server.go:90 | `pub a Hello` publishes `Hello` on `a`. |
| Commands.SubscribeKeepsFirstTopic | server/server.go:94-104 | After `sub`, only the first topic is kept; anything after the next space is dropped. |
| Commands.SubscribeDoubleSpace | server/server.go:94-104 | Two spaces after `sub` give the empty topic name. |
| Subscription.Ack | server/operations.go:70 | The acknowledgement starts with `successfully subscribed to `. For one topic it is that prefix followed by the topic's name. |
| Subscription.AckAppend | server/operations.go:70 | One more topic appends a comma, a space and its name to the acknowledgement. |
| Subscription.AckExamples | server/operations_test.go:18-50 | The acknowledgements for `[a]` and `[a, b]`, and for `[]` once trimmed, are the ones the table test reads. |
| Subscription.EndResult | server/operations.go:79-95 | An ending event gives nil exactly when it is a read error whose cause is EOF. Otherwise it gives the failure wrapped with context. |
| Subscription.Dispatch | server/operations.go:75-97 | The loop writes a prefix of the delivered messages, in order. While it is still running, it has written all of them. |
| Subscription.DispatchRunning | server/operations.go:75-97 | If no event ends the loop, it writes every delivered message in order and keeps running. Nil-error reads are ignored. |
| Subscription.DispatchEnds | server/operations.go:75-97 | The first ending event decides the loop's result. Exactly the messages delivered before it are written, in order. |
| Subscription.DispatchAppend | server/operations.go:75-97 | A loop still running after a prefix of the events continues on the rest in the same way. |
| Subscription.RunDispatch | server/operations.go:75-97 | The while loop writes the same messages and returns the same result as the fold. |
| Subscription.Stream | server/operations.go:69-97 | The acknowledgement is written first, then what the loop writes. A failed acknowledgement write ends the subscription with that error wrapped. |
| Subscription.StreamExample | server/operations_test.go:18-27 | Subscribing to `a` writes the acknowledgement and `Hello, a!`, then ends with nil when the client closes. |
| Broker.Topic.constructor | server/utils.go:24-27 | A new topic has its name, no listeners and nothing sent. |
| Broker.Copies | server/operations.go:27-29 | `n` copies of the message, and none when `n` is not positive. |
| Broker.WrapOperation | server/server.go:113 | The handler's wrap keeps the cause. |
| Broker.Server.constructor | server/server.go:31-40 | A new server has no topics. |
| Broker.Server.GetTopics | server/utils.go:11-36 | Entry i is the topic registered under name i. Keys are the old keys plus the names, and existing entries are unchanged. New entries are fresh with no listeners. The registry is unchanged when all names exist. |
| Broker.Server.AddListener | server/utils.go:71-75 | The topic's listener count goes up by one, and nothing else changes. |
| Broker.Server.RemoveListener | server/utils.go:79-86 | The listener count goes down by one. Below one, the key equal to the topic's name is deleted; otherwise the registry is unchanged. |
| Broker.Server.RetainRelease | server/utils.go:22-86 | Looking up an unregistered name, adding a listener and removing it leaves the registry as it was. |
| Broker.Server.Publish | server/operations.go:14-33 | An unknown topic gives `{topic_does_not_exist, ""}` and changes nothing. Otherwise the result is nil and the message is handed over once per listener. Keys, listener counts and other topics stay unchanged. |
| Broker.Server.Subscribe | server/operations.go:37-98 | The connection receives exactly Stream's output. Once the loop returns, the registry is as before, minus the name when the topic was new or had no listener. While it runs, the topic has one more listener. No topic's messages change. |
| Broker.Server.HandleConn | server/server.go:62-114 | A refused request gets its problem and changes nothing. A publish is answered `internal_server_error` on success and `topic_does_not_exist` for an unknown topic. It changes no listener count and no key. A subscribe writes its stream and is answered with its redacted result once it ends. By then the topic's listener count is back to its old value, or the topic is gone, and nothing was added to its messages. While it still runs, the topic has one more listener and nothing else changes. Every reply to a refused request or a publish needs no JSON escaping. |
| Broker.PublishToOneListener | server/operations_test.go:128-135 | With one listener on `a`, publishing hands the message over exactly once and returns nil. |
| Broker.StaleRelease | server/utils.go:79-86 | A release through a stale reference deletes a newer topic of the same name that still has a listener. Publishing to it then reports that the topic does not exist. |

## Left out

- Sockets, the accept loop in `Start`, `readAndWait` and `read` are left out. The 2048-byte read buffer is also left out. The request and the events a subscription receives are inputs.
- The gaps between looking a topic up and acting on it are not modelled. `getTopics` looks a name up under a read lock and inserts it under a separate write lock without looking again (server/utils.go:17-30), so two connections creating the same topic at once can each insert one. `publish` looks the topic up and sends to it under separate locks (server/operations.go:17-26). The model treats each of these as one step.
- Goroutines, `context` cancellation, the mutex, and the blocking of unbuffered channel sends are left out. Each registry operation is one atomic step, and the channel is the sequence of messages handed to it.
- Broker.Server.Subscribe: models the registry side for the single topic name the handler passes. The acknowledgement and the loop (`Subscription.Stream`) take any list of names.
- Broker.Server.Subscribe: covers only a run where the listener is added after the lookup and removed once the loop returns. Other interleavings of several connections are not modelled, except the one `Broker.StaleRelease` shows.
- Broker.Server.Subscribe: assumes the listener's deferred `removeListener` always runs. In the source, a listener goroutine that takes a topic message just as the loop returns blocks forever on `writeChan <- msg` (server/operations.go:62-63), because nothing reads `writeChan` any more. Its removal then never happens, and the topic keeps one listener too many. The same holds for `Broker.Server.HandleConn`.
- GoStrings.SplitNFree: does not state that the last piece of SplitN is separator-free when there are fewer than n pieces. The parse in `handleConn` does not depend on it.
- Broker.Server.HandleConn: does not state that the reply to a subscription needs no JSON escaping. The trace's read and write errors are arbitrary values, so their causes could be problem details with any text.
- Problems.Encode: requires strings that need no escaping. JSON string escaping by `encoding/json` is not modelled.
- Go strings are modelled as sequences of characters. The conversion between bytes and UTF-8 text is not modelled.
- zerolog logging is left out, because it does not affect what is written to the client.
- main.go (flags, logger, signals) and pubsub.go (an HTTP stub without logic) are not part of this model.
