/** The Telegram channel's handling of one getUpdates answer. */
module TelegramChannel {
  import opened Wrappers
  import opened CText
  import opened Json

  datatype ChannelMessage = ChannelMessage(content: string, sender: string, replyTarget: string)

  // valuedouble: 0 for what is not a number.
  function DoubleOf(j: Json): real {
    if j.Number? then j.value else 0.0
  }

  // The offset after one update: one past its identifier, if it has one.
  function OffsetAfter(offset: int, update: Json): int {
    match Item(update, "update_id")
    case Some(id) => Truncate(DoubleOf(id)) + 1
    case None => offset
  }

  function SenderOf(message: Json): string {
    match Item(message, "from")
    case None => "unknown"
    case Some(from) =>
      match Item(from, "username")
      case Some(Text(name)) => Clip(name, 64)
      case _ => "unknown"
  }

  function ChatOf(message: Json): string {
    match Item(message, "chat")
    case None => ""
    case Some(chat) =>
      match Item(chat, "id")
      case Some(id) => PrintInt(Truncate(DoubleOf(id)))
      case None => ""
  }

  // What the handler is called with for one update: nothing unless it holds a text message.
  function MessageOf(update: Json): Option<ChannelMessage> {
    match Item(update, "message")
    case None => None
    case Some(message) =>
      match Item(message, "text")
      case Some(Text(text)) => Some(ChannelMessage(text, SenderOf(message), ChatOf(message)))
      case _ => None
  }

  function OffsetAfterAll(offset: int, updates: seq<Json>): int {
    if updates == [] then offset
    else OffsetAfter(OffsetAfterAll(offset, updates[..|updates| - 1]), updates[|updates| - 1])
  }

  function MessagesOf(updates: seq<Json>): seq<ChannelMessage> {
    if updates == [] then []
    else
      var before := MessagesOf(updates[..|updates| - 1]);
      match MessageOf(updates[|updates| - 1])
      case Some(m) => before + [m]
      case None => before
  }

  // The updates in an answer: none if it could not be parsed or its result is no array.
  function UpdatesIn(response: Option<Json>): seq<Json> {
    if response.None? then []
    else
      match Item(response.value, "result")
      case Some(Array(items)) => items
      case _ => []
  }

  class TelegramChannel {
    var offset: int
    var handled: seq<ChannelMessage>  // the messages the handler was called with, in order

    constructor ()
      ensures offset == 0 && handled == []
    {
      offset := 0;
      handled := [];
    }

    // The body of tg_listen's loop, once the answer to a poll at this offset is in.
    method TakeAnswer(response: Option<Json>)
      modifies this
      ensures offset == OffsetAfterAll(old(offset), UpdatesIn(response))
      ensures handled == old(handled) + MessagesOf(UpdatesIn(response))
    {
      if response.None? {
        return;
      }
      var result := Item(response.value, "result");
      if result.None? || !result.value.Array? {
        return;
      }
      var updates := result.value.items;
      for i := 0 to |updates|
        invariant offset == OffsetAfterAll(old(offset), updates[..i])
        invariant handled == old(handled) + MessagesOf(updates[..i])
      {
        var upd := updates[i];
        assert updates[..i + 1][..i] == updates[..i];
        var uid := Item(upd, "update_id");
        if uid.Some? {
          offset := Truncate(DoubleOf(uid.value)) + 1;
        }
        var message := Item(upd, "message");
        if message.None? {
          continue;
        }
        var text := Item(message.value, "text");
        if text.None? || !text.value.Text? {
          continue;
        }
        handled := handled + [ChannelMessage(text.value.text, SenderOf(message.value), ChatOf(message.value))];
      }
      assert updates[..|updates|] == updates;
    }
  }
}
