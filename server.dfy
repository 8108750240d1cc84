/** The in-memory message store behind the MessageService RPC service
    (server/main.go). The store maps a caller-chosen id to the record that
    GetMessage hands back; SubmitMessage validates its request and then
    inserts or overwrites the entry for that id.
 */
module Server {

  /** gRPC status codes the store can return: codes.InvalidArgument (3)
      and codes.NotFound (5). */
  datatype Code = InvalidArgument | NotFound

  /** An RPC error: a status code together with its text. */
  datatype Status = Status(code: Code, text: string)

  /** Either the response of an RPC or the status error it failed with. */
  datatype Result<T> = Ok(value: T) | Err(status: Status)

  /** A stored record, which is also the GetMessage response. */
  datatype Record = Record(id: string, message: string)

  datatype SubmitMessageRequest = SubmitMessageRequest(id: string, message: string)

  datatype SubmitMessageResponse = SubmitMessageResponse(success: bool, message: string)

  datatype GetMessageRequest = GetMessageRequest(id: string)

  const RequiredText: string := "Id and message are required"
  const SubmittedText: string := "Message submitted successfully"
  const NotFoundPrefix: string := "Message not found for id: "

  type Store = map<string, Record>

  /** The store's invariant: every record sits under its own id. */
  ghost predicate IdsMatchKeys(store: Store) {
    forall k :: k in store ==> store[k].id == k
  }

  /** The state after a SubmitMessage call together with its reply. */
  datatype Outcome = Outcome(store: Store, reply: Result<SubmitMessageResponse>)

  /** SubmitMessage on a store value: an empty id or message is rejected and
      leaves the store alone; otherwise the entry for the id becomes the
      request's record, whatever was there before. */
  function Submit(store: Store, req: SubmitMessageRequest): (o: Outcome)
    ensures o.reply.Err? <==> req.id == "" || req.message == ""
    ensures o.reply.Err? ==>
      o.reply.status == Status(InvalidArgument, RequiredText) && o.store == store
    ensures o.reply.Ok? ==>
      && o.reply.value == SubmitMessageResponse(true, SubmittedText)
      && o.store.Keys == store.Keys + {req.id}
      && o.store[req.id] == Record(req.id, req.message)
    ensures forall k :: k in store && k != req.id ==> k in o.store && o.store[k] == store[k]
    ensures IdsMatchKeys(store) ==> IdsMatchKeys(o.store)
  {
    if req.id == "" || req.message == "" then
      Outcome(store, Err(Status(InvalidArgument, RequiredText)))
    else
      Outcome(store[req.id := Record(req.id, req.message)],
              Ok(SubmitMessageResponse(true, SubmittedText)))
  }

  /** GetMessage on a store value: the stored record, or NotFound naming the id. */
  function Get(store: Store, req: GetMessageRequest): (r: Result<Record>)
    ensures r.Ok? <==> req.id in store
    ensures r.Ok? ==> r.value == store[req.id]
    ensures r.Err? ==> r.status == Status(NotFound, NotFoundPrefix + req.id)
    ensures IdsMatchKeys(store) && r.Ok? ==> r.value.id == req.id
  {
    if req.id in store then Ok(store[req.id])
    else Err(Status(NotFound, NotFoundPrefix + req.id))
  }

  /** The server object; its map is updated in place by SubmitMessage. */
  class MessageServer {
    var messages: Store

    ghost predicate Valid()
      reads this
    {
      IdsMatchKeys(messages)
    }

    /** NewMessageServer: a server whose store is empty. */
    constructor ()
      ensures Valid()
      ensures messages == map[]
    {
      messages := map[];
    }

    /** Looks the id up; never changes the store. */
    method GetMessage(req: GetMessageRequest) returns (r: Result<Record>)
      ensures r == Get(messages, req)
      ensures Valid() && r.Ok? ==> r.value.id == req.id
    {
      if req.id !in messages {
        return Err(Status(NotFound, NotFoundPrefix + req.id));
      }
      r := Ok(messages[req.id]);
    }

    /** Validates the request and then stores its record under its id. */
    method SubmitMessage(req: SubmitMessageRequest) returns (r: Result<SubmitMessageResponse>)
      modifies this
      ensures Outcome(messages, r) == Submit(old(messages), req)
      ensures old(Valid()) ==> Valid()
    {
      if req.id == "" || req.message == "" {
        return Err(Status(InvalidArgument, RequiredText));
      }
      var message := Record(req.id, req.message);
      messages := messages[req.id := message];
      r := Ok(SubmitMessageResponse(true, SubmittedText));
    }
  }
}
