/** Sequences of calls against one store, executed one after another as the
    server's lock serialises them, and what they leave behind: the last
    accepted write to an id wins, reads leave the store alone, and writes
    to different ids do not interfere.
 */
module History {
  import opened Server

  /** One RPC call made against the store. */
  datatype Call = SubmitCall(submit: SubmitMessageRequest) | GetCall(get: GetMessageRequest)

  datatype Option<T> = None | Some(value: T)

  /** The store after one call: GetMessage leaves it as it was. */
  function Step(store: Store, call: Call): Store {
    match call
    case SubmitCall(req) => Submit(store, req).store
    case GetCall(_) => store
  }

  /** The store after the calls, first to last. */
  function Run(store: Store, calls: seq<Call>): Store
    decreases |calls|
  {
    if calls == [] then store else Run(Step(store, calls[0]), calls[1..])
  }

  /** Whether the call is a SubmitMessage that passes validation for the id. */
  predicate AcceptedWrite(call: Call, id: string) {
    call.SubmitCall? && call.submit.id == id && call.submit.id != "" && call.submit.message != ""
  }

  /** Reference definition of last write wins: the message of the last
      accepted SubmitMessage for the id, if any. */
  function LastWrite(calls: seq<Call>, id: string): Option<string>
    decreases |calls|
  {
    if calls == [] then None
    else match LastWrite(calls[1..], id)
      case Some(m) => Some(m)
      case None => if AcceptedWrite(calls[0], id) then Some(calls[0].submit.message) else None
  }

  /** After any sequence of calls, GetMessage for an id returns the record of
      the last accepted write to it, and what the initial store held for it
      when there was none. */
  lemma {:induction false} RunGet(store: Store, calls: seq<Call>, id: string)
    ensures Get(Run(store, calls), GetMessageRequest(id)) ==
      match LastWrite(calls, id)
      case Some(m) => Ok(Record(id, m))
      case None => Get(store, GetMessageRequest(id))
    decreases |calls|
  {
    if calls != [] {
      RunGet(Step(store, calls[0]), calls[1..], id);
    }
  }

  /** Starting from an empty store, an id no accepted write named is not found. */
  lemma NeverWrittenIsNotFound(calls: seq<Call>, id: string)
    requires LastWrite(calls, id).None?
    ensures Get(Run(map[], calls), GetMessageRequest(id)) ==
      Err(Status(NotFound, NotFoundPrefix + id))
  {
    RunGet(map[], calls, id);
  }

  /** Every sequence of calls keeps each record under its own id. */
  lemma {:induction false} RunKeepsIdsMatchKeys(store: Store, calls: seq<Call>)
    requires IdsMatchKeys(store)
    ensures IdsMatchKeys(Run(store, calls))
    decreases |calls|
  {
    if calls != [] {
      RunKeepsIdsMatchKeys(Step(store, calls[0]), calls[1..]);
    }
  }

  /** No call removes an entry: the ids stored only grow. */
  lemma {:induction false} RunKeepsKeys(store: Store, calls: seq<Call>)
    ensures store.Keys <= Run(store, calls).Keys
    decreases |calls|
  {
    if calls != [] {
      RunKeepsKeys(Step(store, calls[0]), calls[1..]);
    }
  }

  /** Two SubmitMessage calls for different ids commute: in whichever order
      they are serialised, neither update is lost. */
  lemma SubmitsToDistinctIdsCommute(store: Store, a: SubmitMessageRequest, b: SubmitMessageRequest)
    requires a.id != b.id
    ensures Run(store, [SubmitCall(a), SubmitCall(b)]) == Run(store, [SubmitCall(b), SubmitCall(a)])
  {
    var ab := Step(Step(store, SubmitCall(a)), SubmitCall(b));
    var ba := Step(Step(store, SubmitCall(b)), SubmitCall(a));
    RunPair(store, SubmitCall(a), SubmitCall(b));
    RunPair(store, SubmitCall(b), SubmitCall(a));
    assert ab.Keys == ba.Keys;
    forall k | k in ab ensures ab[k] == ba[k] {
    }
  }

  /** Running two calls is stepping through one and then the other. */
  lemma RunPair(store: Store, x: Call, y: Call)
    ensures Run(store, [x, y]) == Step(Step(store, x), y)
  {
    assert [x, y][1..] == [y];
    assert Run(Step(store, x), [y]) == Run(Step(Step(store, x), y), []);
  }
}
