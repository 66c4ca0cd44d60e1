/**
 Polling as a protocol of two parties. The server is the getUpdates contract of the Telegram Bot
 API: identifiers increase, an answer holds the oldest pending updates from the offset on, and an
 offset confirms everything below it. Polls may fail on the way there or on the way back.
 */
module TelegramPolling {
  import opened Wrappers
  import opened CText
  import opened Json
  import opened TelegramChannel
  import opened Widths

  // An update with its identifier and whatever else it holds.
  datatype Update = Update(id: int, fields: map<string, Json>)

  // issued and pending are the server's, offset and handled the client's; delivered and dropped
  // record what reached the client in an answer and what the server gave up on.
  datatype State = State(
    issued: seq<Update>,
    pending: seq<Update>,
    offset: int,
    delivered: seq<Update>,
    dropped: seq<Update>,
    handled: seq<ChannelMessage>)

  // A poll is lost on its way, its answer is lost or unusable, or it comes back with at most limit
  // updates.
  datatype Op =
    | Arrive(update: Update)
    | Expire(count: nat)
    | PollLost
    | AnswerLost
    | AnswerUnusable(response: Option<Json>)
    | Answered(limit: nat)

  const START := State([], [], 0, [], [], [])

  function Rendered(u: Update): Json {
    Object(u.fields["update_id" := Number(u.id as real)])
  }

  function RenderedAll(us: seq<Update>): (r: seq<Json>)
    ensures |r| == |us|
  {
    seq(|us|, i requires 0 <= i < |us| => Rendered(us[i]))
  }

  function Answer(us: seq<Update>): Json {
    Object(map["ok" := Bool(true), "result" := Array(RenderedAll(us))])
  }

  // What is pending once a poll at this offset has confirmed what lies below.
  function Unconfirmed(pending: seq<Update>, offset: int): (r: seq<Update>)
    ensures |r| <= |pending|
  {
    if pending == [] || pending[0].id >= offset then pending else Unconfirmed(pending[1..], offset)
  }

  function Given(pending: seq<Update>, limit: nat): seq<Update> {
    if |pending| <= limit then pending else pending[..limit]
  }

  function Apply(s: State, op: Op): State {
    match op
    case Arrive(u) => s.(issued := s.issued + [u], pending := s.pending + [u])
    case Expire(n) =>
      if n <= |s.pending| then s.(pending := s.pending[n..], dropped := s.dropped + s.pending[..n]) else s
    case PollLost => s
    case AnswerLost => s.(pending := Unconfirmed(s.pending, s.offset))
    case AnswerUnusable(response) =>
      var updates := UpdatesIn(response);
      s.(pending := Unconfirmed(s.pending, s.offset),
         offset := OffsetAfterAll(s.offset, updates), handled := s.handled + MessagesOf(updates))
    case Answered(limit) =>
      var pending := Unconfirmed(s.pending, s.offset);
      var given := Given(pending, limit);
      var updates := UpdatesIn(Some(Answer(given)));
      s.(pending := pending, delivered := s.delivered + given,
         offset := OffsetAfterAll(s.offset, updates), handled := s.handled + MessagesOf(updates))
  }

  // The contract: identifiers are positive, increase, and fit a double; what is unusable holds no
  // updates.
  predicate Lawful(s: State, op: Op) {
    match op
    case Arrive(u) =>
      && 0 < u.id < TWO_TO_53
      && (s.issued != [] ==> s.issued[|s.issued| - 1].id < u.id)
    case AnswerUnusable(response) => UpdatesIn(response) == []
    case _ => true
  }

  // ---- What every step keeps ----

  ghost predicate Ascending(us: seq<Update>) {
    forall i, j :: 0 <= i < j < |us| ==> us[i].id < us[j].id
  }

  // Nothing issued is lost sight of: below the offset it was delivered or given up on, from the
  // offset on it is pending or given up on.
  ghost predicate AccountedFor(s: State, u: Update) {
    || u in s.dropped
    || (if u.id < s.offset then u in s.delivered else u in s.pending)
  }

  ghost predicate Kept(s: State) {
    && Ascending(s.issued) && Ascending(s.pending) && Ascending(s.delivered)
    && (forall u :: u in s.delivered ==> u.id < s.offset)
    && (forall u :: u in s.pending || u in s.delivered || u in s.dropped ==> u in s.issued)
    && (forall u :: u in s.issued ==> AccountedFor(s, u))
    && (forall u :: u in s.issued ==> 0 < u.id)
    && 0 <= s.offset && (s.offset > 0 ==> s.issued != [] && s.offset <= s.issued[|s.issued| - 1].id + 1)
    && s.handled == MessagesOf(RenderedAll(s.delivered))
  }

  lemma {:induction false} UnconfirmedIs(pending: seq<Update>, offset: int)
    requires Ascending(pending)
    ensures var r := Unconfirmed(pending, offset);
            && Ascending(r)
            && (forall u :: u in r <==> u in pending && u.id >= offset)
  {
    if pending != [] && pending[0].id < offset {
      UnconfirmedIs(pending[1..], offset);
      assert forall u :: u in pending <==> u == pending[0] || u in pending[1..];
    }
  }

  lemma RenderedItem(u: Update, offset: int)
    ensures OffsetAfter(offset, Rendered(u)) == u.id + 1
  {
    assert Item(Rendered(u), "update_id") == Some(Number(u.id as real));
    assert Truncate(u.id as real) == u.id;
  }

  // Taking in updates moves the offset just past the last of them.
  lemma {:induction false} OffsetPastLast(offset: int, us: seq<Update>)
    ensures OffsetAfterAll(offset, RenderedAll(us)) == if us == [] then offset else us[|us| - 1].id + 1
  {
    if us != [] {
      var updates := RenderedAll(us);
      RenderedItem(us[|us| - 1], OffsetAfterAll(offset, updates[..|us| - 1]));
      assert updates[|us| - 1] == Rendered(us[|us| - 1]);
    }
  }

  lemma {:induction false} MessagesConcat(a: seq<Json>, b: seq<Json>)
    ensures MessagesOf(a + b) == MessagesOf(a) + MessagesOf(b)
  {
    if b == [] {
      assert a + b == a;
    } else {
      assert (a + b)[..|a + b| - 1] == a + b[..|b| - 1];
      MessagesConcat(a, b[..|b| - 1]);
    }
  }

  lemma ConfirmKept(s: State)
    requires Kept(s)
    ensures var pending := Unconfirmed(s.pending, s.offset);
            Kept(s.(pending := pending)) && forall u :: u in pending ==> s.offset <= u.id
  {
    UnconfirmedIs(s.pending, s.offset);
    var t := s.(pending := Unconfirmed(s.pending, s.offset));
    forall u | u in t.issued ensures AccountedFor(t, u) {
      assert AccountedFor(s, u);
    }
  }

  lemma ExpireKept(s: State, n: nat)
    requires Kept(s) && n <= |s.pending|
    ensures Kept(Apply(s, Expire(n)))
  {
    var t := Apply(s, Expire(n));
    assert s.pending == s.pending[..n] + s.pending[n..];
    forall u | u in t.issued ensures AccountedFor(t, u) {
      assert AccountedFor(s, u);
    }
  }

  lemma ArriveKept(s: State, u: Update)
    requires Kept(s) && Lawful(s, Arrive(u))
    ensures Kept(Apply(s, Arrive(u)))
  {
    var t := Apply(s, Arrive(u));
    forall v | v in s.issued ensures v.id < u.id {
      var i :| 0 <= i < |s.issued| && s.issued[i] == v;
    }
    forall v | v in s.pending ensures v.id < u.id {
      assert v in s.issued;
    }
    forall v | v in t.issued ensures AccountedFor(t, v) {
      if v != u {
        assert v in s.issued && AccountedFor(s, v);
      }
    }
  }

  lemma GivenUpToLast(pending: seq<Update>, given: seq<Update>, u: Update)
    requires Ascending(pending) && given <= pending && given != []
    requires u in pending && u.id <= given[|given| - 1].id
    ensures u in given
  {
    var i :| 0 <= i < |pending| && pending[i] == u;
    assert given[|given| - 1] == pending[|given| - 1];
    if i < |given| {
      assert given[i] == u;
    }
  }

  // The client's side after taking in updates, with the record of what reached it.
  function Delivering(s: State, given: seq<Update>): State
    requires given != []
  {
    s.(delivered := s.delivered + given, offset := given[|given| - 1].id + 1,
       handled := s.handled + MessagesOf(RenderedAll(given)))
  }

  lemma DeliveredOrder(s: State, given: seq<Update>)
    requires Kept(s) && given <= s.pending && given != []
    requires forall u :: u in s.pending ==> s.offset <= u.id
    ensures Ascending(s.delivered + given)
    ensures forall u :: u in s.delivered + given ==> u.id <= given[|given| - 1].id
    ensures s.offset <= given[|given| - 1].id
  {
    assert forall i :: 0 <= i < |given| ==> given[i] == s.pending[i] && given[i] in s.pending;
    assert forall i :: 0 <= i < |s.delivered| ==> s.delivered[i] in s.delivered;
    forall u | u in given ensures u.id <= given[|given| - 1].id {
      var i :| 0 <= i < |given| && given[i] == u;
    }
  }

  lemma DeliverAccounts(s: State, given: seq<Update>, u: Update)
    requires Kept(s) && given <= s.pending && given != []
    requires forall v :: v in s.pending ==> s.offset <= v.id
    requires u in s.issued
    ensures AccountedFor(Delivering(s, given), u)
  {
    assert AccountedFor(s, u);
    if u in s.pending && u.id <= given[|given| - 1].id {
      GivenUpToLast(s.pending, given, u);
    }
  }

  lemma LastIssued(s: State, u: Update)
    requires Kept(s) && u in s.issued
    ensures s.issued != [] && u.id <= s.issued[|s.issued| - 1].id
  {
    var k :| 0 <= k < |s.issued| && s.issued[k] == u;
  }

  lemma RenderedConcat(a: seq<Update>, b: seq<Update>)
    ensures RenderedAll(a + b) == RenderedAll(a) + RenderedAll(b)
  {
  }

  lemma {:induction false} DeliverMessages(s: State, given: seq<Update>)
    requires Kept(s)
    ensures s.handled + MessagesOf(RenderedAll(given)) == MessagesOf(RenderedAll(s.delivered + given))
  {
    RenderedConcat(s.delivered, given);
    MessagesConcat(RenderedAll(s.delivered), RenderedAll(given));
  }

  // Handing over the first of what is pending from the offset on.
  lemma DeliverKept(s: State, given: seq<Update>)
    requires Kept(s) && given <= s.pending && given != []
    requires forall u :: u in s.pending ==> s.offset <= u.id
    ensures Kept(Delivering(s, given))
  {
    var t, last := Delivering(s, given), given[|given| - 1];
    DeliverMessages(s, given);
    DeliveredOrder(s, given);
    forall u | u in t.issued ensures AccountedFor(t, u) {
      DeliverAccounts(s, given, u);
    }
    forall u | u in t.delivered ensures u in t.issued && u.id < t.offset {
      assert u in s.delivered || u in s.pending;
    }
    assert last == s.pending[|given| - 1];
    LastIssued(s, last);
  }

  lemma AnswerRead(us: seq<Update>)
    ensures UpdatesIn(Some(Answer(us))) == RenderedAll(us)
  {
  }

  lemma UnusableKept(s: State, response: Option<Json>)
    requires Kept(s) && UpdatesIn(response) == []
    ensures Kept(Apply(s, AnswerUnusable(response))) && s.offset == Apply(s, AnswerUnusable(response)).offset
  {
    ConfirmKept(s);
    assert s.handled + [] == s.handled;
  }

  // An answer is the server's confirming and handing over, and the client's taking in.
  lemma AnsweredIs(s: State, limit: nat)
    ensures var confirmed := s.(pending := Unconfirmed(s.pending, s.offset));
            var given := Given(confirmed.pending, limit);
            Apply(s, Answered(limit)) == if given == [] then confirmed else Delivering(confirmed, given)
  {
    var given := Given(Unconfirmed(s.pending, s.offset), limit);
    AnswerRead(given);
    OffsetPastLast(s.offset, given);
    assert s.handled + [] == s.handled && s.delivered + [] == s.delivered;
  }

  lemma AnsweredKept(s: State, limit: nat)
    requires Kept(s)
    ensures Kept(Apply(s, Answered(limit))) && s.offset <= Apply(s, Answered(limit)).offset
  {
    ConfirmKept(s);
    AnsweredIs(s, limit);
    var confirmed := s.(pending := Unconfirmed(s.pending, s.offset));
    var given := Given(confirmed.pending, limit);
    if given != [] {
      DeliverKept(confirmed, given);
      DeliveredOrder(confirmed, given);
    }
  }

  lemma StepKept(s: State, op: Op)
    requires Kept(s) && Lawful(s, op)
    ensures Kept(Apply(s, op)) && s.offset <= Apply(s, op).offset
  {
    match op
    case Arrive(u) => ArriveKept(s, u);
    case Expire(n) =>
      if n <= |s.pending| {
        ExpireKept(s, n);
      }
    case PollLost =>
    case AnswerLost => ConfirmKept(s);
    case AnswerUnusable(response) => UnusableKept(s, response);
    case Answered(limit) => AnsweredKept(s, limit);
  }

  ghost predicate Reaches(s: State, ops: seq<Op>, t: State)
    decreases |ops|
  {
    if ops == [] then s == t else Lawful(s, ops[0]) && Reaches(Apply(s, ops[0]), ops[1..], t)
  }

  lemma {:induction false} RunKept(s: State, ops: seq<Op>, t: State)
    requires Kept(s) && Reaches(s, ops, t)
    ensures Kept(t) && s.offset <= t.offset
    decreases |ops|
  {
    if ops != [] {
      StepKept(s, ops[0]);
      RunKept(Apply(s, ops[0]), ops[1..], t);
    }
  }

  // ---- What the handler is told ----

  // The sender of a message, with whatever else is said about him; a username is optional.
  datatype From = From(username: Option<string>, rest: map<string, Json>)

  // What an update holds: a text message, with or without a sender and a chat, or no text at all.
  datatype Content =
    | TextMessage(text: string, from: Option<From>, chat: Option<int>,
                  chatRest: map<string, Json>, rest: map<string, Json>, others: map<string, Json>)
    | NoText(fields: map<string, Json>)

  function FromJson(f: From): Json {
    Object(match f.username
           case Some(name) => f.rest["username" := Text(name)]
           case None => f.rest - {"username"})
  }

  function ChatJson(id: int, rest: map<string, Json>): Json {
    Object(rest["id" := Number(id as real)])
  }

  // One field of an object, or its absence.
  function WithField(fields: map<string, Json>, key: string, value: Option<Json>): map<string, Json> {
    match value case Some(v) => fields[key := v] case None => fields - {key}
  }

  function MessageJson(c: Content): Json
    requires c.TextMessage?
  {
    var from := if c.from.Some? then Some(FromJson(c.from.value)) else None;
    var chat := if c.chat.Some? then Some(ChatJson(c.chat.value, c.chatRest)) else None;
    Object(WithField(WithField(c.rest, "from", from), "chat", chat)["text" := Text(c.text)])
  }

  // The fields of an update as the Bot API prints them.
  function Printed(c: Content): map<string, Json> {
    match c
    case TextMessage(_, _, _, _, _, others) => others["message" := MessageJson(c)]
    case NoText(fields) => fields
  }

  // A username is as it is up to 63 characters, a chat identifier fits a double, and what holds no
  // text indeed holds none.
  predicate WellPrinted(c: Content) {
    match c
    case TextMessage(_, _, chat, _, _, _) => chat.Some? ==> -TWO_TO_53 <= chat.value <= TWO_TO_53
    case NoText(fields) =>
      "message" in fields && fields["message"].Object? && "text" in fields["message"].fields ==>
        !fields["message"].fields["text"].Text?
  }

  // What the handler is to hear of an update: nothing unless it is a text message; otherwise its
  // text, the first 63 characters of the sender's name, "unknown" for a sender without one, and the
  // chat's identifier in decimal, or nothing for no chat.
  predicate Hears(c: Content, m: Option<ChannelMessage>) {
    match c
    case NoText(_) => m == None
    case TextMessage(text, from, chat, _, _, _) =>
      && m.Some?
      && m.value.content == text
      && (if from.None? || from.value.username.None? then m.value.sender == "unknown"
          else var name := from.value.username.value;
               m.value.sender == if |name| < 64 then name else name[..63])
      && (if chat.None? then m.value.replyTarget == ""
          else m.value.replyTarget == PrintInt(chat.value) && Strtol(m.value.replyTarget) == Scan(chat.value, ""))
  }

  lemma MessageFields(c: Content)
    requires c.TextMessage?
    ensures var m := MessageJson(c);
            && Item(m, "text") == Some(Text(c.text))
            && Item(m, "from") == (if c.from.Some? then Some(FromJson(c.from.value)) else None)
            && Item(m, "chat") == (if c.chat.Some? then Some(ChatJson(c.chat.value, c.chatRest)) else None)
  {
  }

  lemma SenderHeard(c: Content)
    requires c.TextMessage?
    ensures var sender := SenderOf(MessageJson(c));
            if c.from.None? || c.from.value.username.None? then sender == "unknown"
            else var name := c.from.value.username.value;
                 sender == if |name| < 64 then name else name[..63]
  {
    MessageFields(c);
  }

  lemma ChatHeard(c: Content)
    requires c.TextMessage? && WellPrinted(c)
    ensures var target := ChatOf(MessageJson(c));
            if c.chat.None? then target == ""
            else target == PrintInt(c.chat.value) && Strtol(target) == Scan(c.chat.value, "")
  {
    MessageFields(c);
    if c.chat.Some? {
      assert Item(ChatJson(c.chat.value, c.chatRest), "id") == Some(Number(c.chat.value as real));
      assert Truncate(c.chat.value as real) == c.chat.value;
      ScanUndoesPrintInt(c.chat.value, "");
      assert PrintInt(c.chat.value) + "" == PrintInt(c.chat.value);
    }
  }

  // The handler hears of an update exactly what is printed in it.
  lemma MessageExactly(u: Update, c: Content)
    requires u.fields == Printed(c) && WellPrinted(c)
    ensures Hears(c, MessageOf(Rendered(u)))
  {
    assert Item(Rendered(u), "message") == if "message" in u.fields then Some(u.fields["message"]) else None;
    if c.TextMessage? {
      MessageFields(c);
      SenderHeard(c);
      ChatHeard(c);
    }
  }

  // Of any other JSON: only a text in a message is heard, a sender without a name in text is
  // "unknown", and a chat identifier that is no number counts as 0.
  lemma OddUpdateHeard(update: Json)
    ensures var m := Item(update, "message");
            && (MessageOf(update).Some? <==>
                m.Some? && Item(m.value, "text").Some? && Item(m.value, "text").value.Text?)
            && (m.Some? && !(Item(m.value, "from").Some?
                             && Item(Item(m.value, "from").value, "username").Some?
                             && Item(Item(m.value, "from").value, "username").value.Text?)
                ==> SenderOf(m.value) == "unknown")
            && (m.Some? && Item(m.value, "chat").Some?
                && Item(Item(m.value, "chat").value, "id").Some?
                && !Item(Item(m.value, "chat").value, "id").value.Number?
                ==> ChatOf(m.value) == "0")
  {
  }

  // The messages a list of updates is heard as, one for each text message and in the same order;
  // contents says what each update holds.
  ghost predicate Heard(contents: Update -> Content, us: seq<Update>, ms: seq<ChannelMessage>)
    decreases |us|
  {
    if us == [] then ms == []
    else
      var init, last := us[..|us| - 1], contents(us[|us| - 1]);
      if last.NoText? then Heard(contents, init, ms)
      else ms != [] && Hears(last, Some(ms[|ms| - 1])) && Heard(contents, init, ms[..|ms| - 1])
  }

  function Listed(m: Option<ChannelMessage>): seq<ChannelMessage> {
    match m case Some(v) => [v] case None => []
  }

  lemma {:induction false} HeardNext(contents: Update -> Content, us: seq<Update>, ms: seq<ChannelMessage>,
                                     m: Option<ChannelMessage>)
    requires us != [] && Heard(contents, us[..|us| - 1], ms) && Hears(contents(us[|us| - 1]), m)
    ensures Heard(contents, us, ms + Listed(m))
  {
    if m.Some? {
      assert (ms + [m.value])[..|ms|] == ms;
    } else {
      assert ms + [] == ms;
    }
  }

  lemma {:induction false} MessagesNext(us: seq<Update>)
    requires us != []
    ensures MessagesOf(RenderedAll(us)) ==
            MessagesOf(RenderedAll(us[..|us| - 1])) + Listed(MessageOf(Rendered(us[|us| - 1])))
  {
    assert RenderedAll(us)[..|us| - 1] == RenderedAll(us[..|us| - 1]);
    assert RenderedAll(us)[|us| - 1] == Rendered(us[|us| - 1]);
  }

  lemma {:induction false} MessagesHeard(contents: Update -> Content, us: seq<Update>)
    requires forall u :: u in us ==> u.fields == Printed(contents(u)) && WellPrinted(contents(u))
    ensures Heard(contents, us, MessagesOf(RenderedAll(us)))
  {
    if us != [] {
      var init, last := us[..|us| - 1], us[|us| - 1];
      MessagesHeard(contents, init);
      assert last in us;
      MessageExactly(last, contents(last));
      MessagesNext(us);
      HeardNext(contents, us, MessagesOf(RenderedAll(init)), MessageOf(Rendered(last)));
    }
  }

  // ---- Whole runs ----

  // Over every run, whichever polls and answers are lost: the handler has been called for exactly
  // the text messages among the delivered updates, once each and in the order of their identifiers;
  // and every update ever issued was delivered, or is still pending from the offset on, or was
  // given up by the server.
  lemma HandledExactlyOnce(ops: seq<Op>, t: State)
    requires Reaches(START, ops, t)
    ensures t.handled == MessagesOf(RenderedAll(t.delivered))
    ensures Ascending(t.delivered)
    ensures forall u :: u in t.issued ==> AccountedFor(t, u)
    ensures forall u :: u in t.pending && t.offset <= u.id ==> u !in t.delivered
  {
    assert RenderedAll([]) == [];
    RunKept(START, ops, t);
  }

  // So over every run in which the updates are as the Bot API prints them, the handler has heard the
  // delivered text messages, each once and in order: its text, its sender, and its chat to reply to.
  lemma HandledAsPrinted(ops: seq<Op>, t: State, contents: Update -> Content)
    requires Reaches(START, ops, t)
    requires forall u :: u in t.issued ==> u.fields == Printed(contents(u)) && WellPrinted(contents(u))
    ensures Ascending(t.delivered)
    ensures Heard(contents, t.delivered, t.handled)
  {
    assert RenderedAll([]) == [];
    RunKept(START, ops, t);
    MessagesHeard(contents, t.delivered);
  }

  // The offset never goes back between two points of a run.
  lemma OffsetNeverDecreases(before: seq<Op>, after: seq<Op>, s: State, t: State)
    requires Reaches(START, before, s) && Reaches(s, after, t)
    ensures s.offset <= t.offset
  {
    assert RenderedAll([]) == [];
    RunKept(START, before, s);
    RunKept(s, after, t);
  }
}
