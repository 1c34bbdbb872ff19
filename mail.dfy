/** The parts of a Microsoft Graph message the note engine reads. A missing
    JSON field is None; an empty string stays an empty string, because the
    code tells the two apart only through Python truthiness. */
module Mail {
  import opened Text

  /** One entry of toRecipients: emailAddress.name and emailAddress.address */
  datatype Recipient = Recipient(name: Option<string>, address: Option<string>)

  datatype Message = Message(
    subject: Option<string>,
    senderName: Option<string>,
    senderAddress: Option<string>,
    receivedDateTime: Option<string>,
    sentDateTime: Option<string>,
    toRecipients: seq<Recipient>,
    categories: seq<string>)

  /** message.get("receivedDateTime") or message.get("sentDateTime"), with
      None for a falsy result */
  function ReceivedStamp(m: Message): (r: Option<string>)
    ensures r.Some? ==> r.value != []
    ensures r.Some? && OrEmpty(m.receivedDateTime) == [] ==> r == m.sentDateTime
    ensures r.None? <==> OrEmpty(m.receivedDateTime) == [] && OrEmpty(m.sentDateTime) == []
  {
    if OrEmpty(m.receivedDateTime) != [] then m.receivedDateTime
    else if OrEmpty(m.sentDateTime) != [] then m.sentDateTime
    else None
  }
}
