# MessageService store, modelled in Dafny

This project models the in-memory message store of the `MessageService` gRPC
server in `server/main.go`. A `MessageServer` owns a map from a
caller-chosen id to a record `(Id, Message)`. The server has two RPCs:

- `SubmitMessage` rejects an empty id or an empty message with
  `InvalidArgument` ("Id and message are required"). Otherwise it stores the
  record under the id, overwriting any earlier one, and replies
  `Success = true`, "Message submitted successfully".
- `GetMessage` returns the stored record, or `NotFound` with the text
  "Message not found for id: " followed by the id.

The files:

- `server.dfy` (module `Server`) holds the request, response, record and
  status datatypes. It has two pure functions, `Submit` and `Get`, which say
  what one call does to a store value. It also has the class
  `MessageServer`, whose `messages` map field `SubmitMessage` updates in
  place. `Valid()` is the class invariant: every record is stored under its
  own id.
- `history.dfy` (module `History`) runs a sequence of calls in order. A
  reference function, `LastWrite`, gives the last accepted write to an id.
  The lemmas prove three things: a read returns the last accepted write, the
  invariant survives any sequence of calls, and writes to different ids
  commute.
- `client.dfy` (module `Client`) holds caller scenarios on a freshly
  constructed server, in the style of `client/main.go`.

The generated protobuf types are not part of this model. Plain datatypes
with the same fields replace them. A gRPC status error becomes
`Err(Status(code, text))`. The two codes are gRPC codes 3 and 5.

## Model

| member | source | states |
|---|---|---|
| Server.Submit | server/main.go:44-65 | The reply is an error exactly when the id or the message is empty. That error is InvalidArgument with "Id and message are required", and the store is left unchanged. On success the reply is (true, "Message submitted successfully"). The id is then stored, mapped to the request's record, whether or not it was there before. Every other id keeps its entry. The ids-match-keys invariant is preserved. |
| Server.Get | server/main.go:30-42 | The lookup succeeds exactly when the id is stored, and it then returns that stored record. Otherwise it returns NotFound with "Message not found for id: " + id. Under the invariant, a returned record carries the requested id. |
| Server.MessageServer.constructor | server/main.go:24-28 | A new server has an empty store and satisfies the invariant. |
| Server.MessageServer.GetMessage | server/main.go:30-42 | A read-only lookup that agrees with `Get` on the current map. Under the class invariant, a returned record carries the requested id. |
| Server.MessageServer.SubmitMessage | server/main.go:44-65 | The new map and the reply are exactly what `Submit` gives for the old map. The class invariant is preserved. |
| History.RunGet | server/main.go:48-58 | After any sequence of calls, a read of an id returns the record of the last accepted SubmitMessage to that id (last write wins). If no such write happened, it returns what the initial store gave. |
| History.NeverWrittenIsNotFound | server/main.go:37-39 | Starting from an empty server, an id that no accepted write named is reported NotFound. |
| History.RunKeepsIdsMatchKeys | server/main.go:52-58 | Every sequence of calls keeps every record stored under its own id. |
| History.RunKeepsKeys | server/main.go:57-59 | No call removes an id from the store. |
| History.SubmitsToDistinctIdsCommute | server/main.go:57-59 | Two submits to different ids leave the same store in either order, so neither update is lost. |
| Client.SubmitThenGet | client/main.go:28-46 | On a new server, a submit is accepted iff the id and message are non-empty. If accepted, the following get returns exactly (id, message). If rejected, the error is InvalidArgument and the get reports NotFound. |
| Client.SubmitTwiceThenGet | server/main.go:57-59 | Two submits to one id: the get returns the second message when that submit was accepted. Otherwise it returns the first message when that one was accepted, and NotFound when neither was. |
| Client.SubmitOtherThenGet | server/main.go:57-59 | A submit to another id does not disturb an accepted record. If the first submit was rejected, the get reports NotFound. |

## Left out

- The `sync.RWMutex` (server/main.go:20, 33-35, 57-59) is left out. It only serialises concurrent handlers, so calls are modelled as atomic steps taken one after another.
- Logging through `log.Printf` and `fmt.Printf` is left out. It has no effect on the store or the replies.
- `main` in server/main.go is left out: TCP listen, gRPC registration and reflection are I/O and library calls.
- The RPC context argument is left out, because the handlers ignore it.
- The whole of client/main.go is left out as code (dialling, the 5 s timeout, logging). `Client` only models its submit-then-get call order.
- The whole of web/main.go is left out: HTTP handlers, JSON, templates, timeouts and the mapping of every RPC error to HTTP 500.
- The map holds pointers to response messages, and `GetMessage` returns the stored pointer itself. The model stores records by value, so it does not capture aliasing between a returned response and the stored entry.
- Strings are sequences of characters, while Go strings are bytes. Only emptiness, equality and joining the NotFound text to the id matter here, and all three agree between bytes and characters.
