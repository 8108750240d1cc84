/** Callers of a freshly constructed server, issuing calls one after another
    the way the command-line client does: what they can conclude from the
    server's contracts alone.
 */
module Client {
  import opened Server

  /** Submit a message and read it back. A rejected submit stores nothing,
      so the read then finds nothing. */
  method SubmitThenGet(id: string, message: string)
    returns (submitted: Result<SubmitMessageResponse>, fetched: Result<Record>)
    ensures submitted.Ok? <==> id != "" && message != ""
    ensures submitted.Ok? ==>
      submitted.value.success && fetched == Ok(Record(id, message))
    ensures submitted.Err? ==>
      && submitted.status == Status(InvalidArgument, RequiredText)
      && fetched == Err(Status(NotFound, NotFoundPrefix + id))
  {
    var server := new MessageServer();
    submitted := server.SubmitMessage(SubmitMessageRequest(id, message));
    fetched := server.GetMessage(GetMessageRequest(id));
  }

  /** Two submits to the same id: the read sees the later one when it was
      accepted, and the earlier one when only that was. */
  method SubmitTwiceThenGet(id: string, first: string, second: string)
    returns (fetched: Result<Record>)
    ensures id != "" && second != "" ==> fetched == Ok(Record(id, second))
    ensures id != "" && second == "" && first != "" ==> fetched == Ok(Record(id, first))
    ensures id == "" || (first == "" && second == "") ==>
      fetched == Err(Status(NotFound, NotFoundPrefix + id))
  {
    var server := new MessageServer();
    var _ := server.SubmitMessage(SubmitMessageRequest(id, first));
    var _ := server.SubmitMessage(SubmitMessageRequest(id, second));
    fetched := server.GetMessage(GetMessageRequest(id));
  }

  /** Writes to one id leave another id's record alone. */
  method SubmitOtherThenGet(id: string, message: string, other: string, otherMessage: string)
    returns (fetched: Result<Record>)
    requires id != other
    ensures id != "" && message != "" ==> fetched == Ok(Record(id, message))
    ensures !(id != "" && message != "") ==> fetched == Err(Status(NotFound, NotFoundPrefix + id))
  {
    var server := new MessageServer();
    var _ := server.SubmitMessage(SubmitMessageRequest(id, message));
    var _ := server.SubmitMessage(SubmitMessageRequest(other, otherMessage));
    fetched := server.GetMessage(GetMessageRequest(id));
  }
}
