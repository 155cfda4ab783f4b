/** The webhook handler: a Telegram update is read into the replies the
    bot sends. `Dispatch` is the handler's decision logic as a function from
    the update to the actions it takes; `HandleUpdate` is the handler step by
    step, with the catalog and playback services given as functions from
    the requested page or id to their response. */
module Webhook {
  import opened Wrappers
  import opened JsText
  import opened Callback
  import opened Catalog
  import opened Stream

  /** The chat of a message; Telegram may leave out either name. */
  datatype Chat = Chat(id: int, firstName: Option<string>, lastName: Option<string>)

  datatype Message = Message(chat: Option<Chat>, text: Option<string>)

  /** A button press: the message the keyboard is attached to (absent for
      inline-mode messages) and the button's callback data. */
  datatype CallbackQuery = CallbackQuery(message: Option<Message>, data: Option<string>)

  /** The request body: a plain message, a button press, or both. */
  datatype Update = Update(message: Option<Message>, callbackQuery: Option<CallbackQuery>)

  /** The playback service's answer for one id: the `playbackUrls` list, or
      the failure message carried by the error response (which may be
      missing). A failure of the token exchange before it ends the same way. */
  datatype Playback = Playback(playbackUrls: seq<PlaybackUrl>) | UpstreamError(message: Option<string>)

  /** What the handler decides to do. */
  datatype Action =
    | CatalogReply(chatId: Option<int>, greeting: string, page: Option<int>)
    | PlayReply(chatId: Option<int>, id: Option<int>)

  /** One `sendMessage` call. */
  datatype Outbound = SendMessage(chatId: Option<int>, text: string, keyboard: Option<Keyboard>)

  const StartCommand := "/start"
  const RetryPrompt := "Try after few seconds"

  /** The message the handler reads: the callback query's when there is a
      callback query, else the update's own. */
  function EffectiveMessage(u: Update): Option<Message> {
    if u.callbackQuery.Some? then u.callbackQuery.value.message else u.message
  }

  /** The callback data, undefined when there is no callback query. */
  function CallbackData(u: Update): Option<string> {
    if u.callbackQuery.Some? then u.callbackQuery.value.data else None
  }

  /** JavaScript truthiness of an optional string: present and not empty. */
  predicate Truthy(data: Option<string>) {
    data.Some? && data.value != ""
  }

  /** `data && data.split("::")[0] === kind` */
  predicate IsKind(data: Option<string>, kind: string) {
    Truthy(data) && Kind(data.value) == kind
  }

  /** For a non-empty kind without ':', the test holds exactly when the
      data is present and is the kind itself or starts with `kind + "::"`. */
  lemma IsKindMeans(data: Option<string>, kind: string)
    requires kind != "" && Avoids(kind, Separator)
    ensures IsKind(data, kind) <==>
              data.Some? && (data.value == kind ||
                             (|kind| + 2 <= |data.value| && data.value[..|kind| + 2] == kind + Separator))
  {
    if data.Some? {
      KindIs(data.value, kind);
    }
  }

  /** `page`: 1 unless the data is a PAGE token, then its parsed suffix. */
  function RequestedPage(u: Update): Option<int> {
    if IsKind(CallbackData(u), Page) then SuffixValue(CallbackData(u).value) else Some(1)
  }

  /** The text a template literal writes for an optional field. */
  function Shown(field: Option<string>): string {
    match field
    case Some(s) => s
    case None => "undefined"
  }

  /** `chat?.id` */
  function ChatId(chat: Option<Chat>): Option<int> {
    if chat.Some? then Some(chat.value.id) else None
  }

  /** `Welcome ${chat?.first_name} ${chat?.last_name}` */
  function Greeting(chat: Option<Chat>): string {
    if chat.Some? then "Welcome " + Shown(chat.value.firstName) + " " + Shown(chat.value.lastName)
    else "Welcome undefined undefined"
  }

  predicate WantsCatalog(u: Update)
    requires EffectiveMessage(u).Some?
  {
    EffectiveMessage(u).value.text == Some(StartCommand) || IsKind(CallbackData(u), Page)
  }

  /** The handler's decisions, in the order it takes them: a catalog reply
      for "/start" or a PAGE token, then a playback reply for a PLAY token.
      The two tests are independent, so both may fire, and any other update
      gets no reply. Every reply goes to the chat of the message read. */
  function Dispatch(u: Update): (actions: seq<Action>)
    requires EffectiveMessage(u).Some?
    ensures |actions| <= 2
    ensures forall k :: 0 <= k < |actions| ==> actions[k].chatId == ChatId(EffectiveMessage(u).value.chat)
    ensures WantsCatalog(u) <==> |actions| > 0 && actions[0].CatalogReply?
    ensures IsKind(CallbackData(u), Play) <==> |actions| > 0 && actions[|actions| - 1].PlayReply?
    ensures |actions| == (if WantsCatalog(u) then 1 else 0) + (if IsKind(CallbackData(u), Play) then 1 else 0)
    ensures WantsCatalog(u) ==>
              actions[0].greeting == Greeting(EffectiveMessage(u).value.chat) && actions[0].page == RequestedPage(u)
    ensures IsKind(CallbackData(u), Play) ==> actions[|actions| - 1].id == SuffixValue(CallbackData(u).value)
  {
    var chat := EffectiveMessage(u).value.chat;
    var data := CallbackData(u);
    (if WantsCatalog(u) then [CatalogReply(ChatId(chat), Greeting(chat), RequestedPage(u))] else []) +
    (if IsKind(data, Play) then [PlayReply(ChatId(chat), SuffixValue(data.value))] else [])
  }

  /** The handler needs a non-empty `playbackUrls` list when playback
      succeeds: `playbackUrls[0]` is destructured. */
  predicate PlaybackUsable(u: Update, playback: Option<int> -> Playback) {
    IsKind(CallbackData(u), Play) ==>
      var answer := playback(SuffixValue(CallbackData(u).value));
      answer.Playback? ==> |answer.playbackUrls| > 0
  }

  /** `"Try after few seconds" + "[Error] " + message` */
  function RetryText(message: Option<string>): string {
    RetryPrompt + "[Error] " + Shown(message)
  }

  /** The message sent for one action, given the services' answers. */
  function Perform(a: Action, catalog: Option<int> -> CatalogPage, playback: Option<int> -> Playback): Outbound
    requires a.PlayReply? && playback(a.id).Playback? ==> |playback(a.id).playbackUrls| > 0
  {
    match a
    case CatalogReply(chatId, greeting, page) =>
      SendMessage(chatId, greeting, Some(KeyboardFor(page, catalog(page))))
    case PlayReply(chatId, id) =>
      match playback(id)
      case Playback(urls) => SendMessage(chatId, StreamUrl(urls).playbackUrls, None)
      case UpstreamError(message) => SendMessage(chatId, RetryText(message), None)
  }

  /** Every message the handler sends for an update, in order. */
  function Replies(u: Update, catalog: Option<int> -> CatalogPage, playback: Option<int> -> Playback): seq<Outbound>
    requires EffectiveMessage(u).Some? && PlaybackUsable(u, playback)
  {
    var actions := Dispatch(u);
    seq(|actions|, k requires 0 <= k < |actions| => Perform(actions[k], catalog, playback))
  }

  /** The message of the catalog reply, if the update asks for one. */
  function CatalogMessages(u: Update, catalog: Option<int> -> CatalogPage, playback: Option<int> -> Playback): seq<Outbound>
    requires EffectiveMessage(u).Some?
  {
    var chat := EffectiveMessage(u).value.chat;
    if WantsCatalog(u) then [Perform(CatalogReply(ChatId(chat), Greeting(chat), RequestedPage(u)), catalog, playback)] else []
  }

  /** The message of the playback reply, if the update asks for one. */
  function PlayMessages(u: Update, catalog: Option<int> -> CatalogPage, playback: Option<int> -> Playback): seq<Outbound>
    requires EffectiveMessage(u).Some? && PlaybackUsable(u, playback)
  {
    var chat := EffectiveMessage(u).value.chat;
    if IsKind(CallbackData(u), Play)
    then [Perform(PlayReply(ChatId(chat), SuffixValue(CallbackData(u).value)), catalog, playback)]
    else []
  }

  /** The replies are the catalog reply's message, then the playback
      reply's. */
  lemma RepliesInOrder(u: Update, catalog: Option<int> -> CatalogPage, playback: Option<int> -> Playback)
    requires EffectiveMessage(u).Some? && PlaybackUsable(u, playback)
    ensures Replies(u, catalog, playback) == CatalogMessages(u, catalog, playback) + PlayMessages(u, catalog, playback)
  {
  }

  /** The webhook handler as `index.js` writes it: `page` starts at 1, the
      callback query replaces `message` and sets `data`, a PAGE token sets
      `page`, and two independent tests send the catalog reply and the
      playback reply. */
  method HandleUpdate(u: Update, catalog: Option<int> -> CatalogPage, playback: Option<int> -> Playback)
    returns (sent: seq<Outbound>)
    requires EffectiveMessage(u).Some? && PlaybackUsable(u, playback)
    ensures sent == Replies(u, catalog, playback)
  {
    sent := [];
    var data: Option<string> := None;
    var page: Option<int> := Some(1);
    var message := u.message;
    if u.callbackQuery.Some? {
      message := u.callbackQuery.value.message;
      data := u.callbackQuery.value.data;
    }
    if Truthy(data) && Kind(data.value) == Page {
      page := SuffixValue(data.value);
    }
    var chat := message.value.chat;
    var text := message.value.text;
    var chatId := if chat.Some? then Some(chat.value.id) else None;
    assert message == EffectiveMessage(u) && data == CallbackData(u) && page == RequestedPage(u);
    RepliesInOrder(u, catalog, playback);

    if text == Some(StartCommand) || (Truthy(data) && Kind(data.value) == Page) {
      var responseText := Greeting(chat);
      var keyboard := BuildKeyboard(page, catalog(page));
      sent := sent + [SendMessage(chatId, responseText, Some(keyboard))];
    }
    assert sent == CatalogMessages(u, catalog, playback);

    if Truthy(data) && Kind(data.value) == Play {
      match playback(SuffixValue(data.value))
      case Playback(urls) =>
        var info := StreamUrl(urls);
        sent := sent + [SendMessage(chatId, info.playbackUrls, None)];
      case UpstreamError(message) =>
        sent := sent + [SendMessage(chatId, RetryText(message), None)];
    }
  }

  // ---------------------------------------------------------------------
  // What each kind of update leads to

  /** A button press on message `m` carrying callback data `data`. */
  function Press(m: Message, data: string): Update {
    Update(None, Some(CallbackQuery(Some(m), Some(data))))
  }

  /** "/start" sent as a plain message asks for the first catalog page and
      nothing else. */
  lemma DispatchStart(m: Message)
    requires m.text == Some(StartCommand)
    ensures Dispatch(Update(Some(m), None)) == [CatalogReply(ChatId(m.chat), Greeting(m.chat), Some(1))]
  {
  }

  /** A plain message other than "/start" gets no reply. */
  lemma DispatchOtherText(m: Message)
    requires m.text != Some(StartCommand)
    ensures Dispatch(Update(Some(m), None)) == []
  {
  }

  /** Pressing a PAGE token for page n asks for catalog page n, and only
      that. */
  lemma DispatchPageToken(m: Message, n: int)
    ensures Dispatch(Press(m, Token(Page, n))) == [CatalogReply(ChatId(m.chat), Greeting(m.chat), Some(n))]
  {
    var u := Press(m, Token(Page, n));
    KindsAvoidSeparator();
    TokenRoundTrip(Page, n);
    assert CallbackData(u) == Some(Token(Page, n)) && |Token(Page, n)| > 0;
    assert IsKind(CallbackData(u), Page) && !IsKind(CallbackData(u), Play);
    assert RequestedPage(u) == Some(n);
  }

  /** Pressing a PLAY token for id n asks for the playback of n; a catalog
      reply comes first only if the pressed message's own text is "/start". */
  lemma DispatchPlayToken(m: Message, n: int)
    ensures Dispatch(Press(m, Token(Play, n))) ==
              (if m.text == Some(StartCommand) then [CatalogReply(ChatId(m.chat), Greeting(m.chat), Some(1))] else []) +
              [PlayReply(ChatId(m.chat), Some(n))]
  {
    var u := Press(m, Token(Play, n));
    KindsAvoidSeparator();
    TokenRoundTrip(Play, n);
    assert CallbackData(u) == Some(Token(Play, n)) && |Token(Play, n)| > 0;
    assert IsKind(CallbackData(u), Play) && !IsKind(CallbackData(u), Page);
    assert RequestedPage(u) == Some(1);
  }

  /** A PAGE token whose number does not parse, such as "PAGE::abc",
      still gets a catalog reply, for page NaN; by
      `Catalog.NaNPageKeyboard` its keyboard has no navigation row. */
  lemma DispatchMalformedPage(m: Message, rest: string)
    requires IndexOf(rest, Separator).None? && ParseInt(rest) == None
    ensures Dispatch(Press(m, Page + Separator + rest)) == [CatalogReply(ChatId(m.chat), Greeting(m.chat), None)]
  {
    var data := Page + Separator + rest;
    UnparsablePage(rest);
    assert Kind(data) != Play;
    assert RequestedPage(Press(m, data)) == None;
  }

  /** A bare "PAGE" gets the same catalog reply for page NaN. */
  lemma DispatchBarePage(m: Message)
    ensures Dispatch(Press(m, Page)) == [CatalogReply(ChatId(m.chat), Greeting(m.chat), None)]
  {
    BarePage();
  }

  /** Callback data of any other kind, or empty data, gets no reply unless
      the message text is "/start". */
  lemma DispatchUnknown(m: Message, data: string)
    requires m.text != Some(StartCommand)
    requires data == "" || (Kind(data) != Page && Kind(data) != Play)
    ensures Dispatch(Press(m, data)) == []
  {
  }

  /** A press that carries no callback data at all is treated like empty
      data: no reply unless the message text is "/start", and then the
      first catalog page. */
  lemma DispatchNoData(m: Message)
    ensures var u := Update(None, Some(CallbackQuery(Some(m), None)));
            Dispatch(u) == if m.text == Some(StartCommand)
                           then [CatalogReply(ChatId(m.chat), Greeting(m.chat), Some(1))]
                           else []
  {
  }

  /** When an update carries both a message and a callback query, the
      callback query decides everything: the update's own message is never
      read. */
  lemma CallbackQueryWins(own: Option<Message>, q: CallbackQuery)
    requires q.message.Some?
    ensures Dispatch(Update(own, Some(q))) == Dispatch(Update(None, Some(q)))
  {
    assert EffectiveMessage(Update(own, Some(q))) == EffectiveMessage(Update(None, Some(q)));
    assert CallbackData(Update(own, Some(q))) == CallbackData(Update(None, Some(q)));
  }

  /** Pressing the button of row i of a catalog keyboard plays episode i of
      that page. */
  lemma EpisodeButtonPress(m: Message, page: Option<int>, catalogPage: CatalogPage, i: nat)
    requires i < |catalogPage.result|
    ensures |KeyboardFor(page, catalogPage)[i]| == 1
    ensures var d := Dispatch(Press(m, KeyboardFor(page, catalogPage)[i][0].callbackData));
            |d| > 0 && d[|d| - 1] == PlayReply(ChatId(m.chat), Some(catalogPage.result[i].id))
  {
    var e := catalogPage.result[i];
    assert KeyboardFor(page, catalogPage)[i] == EpisodeRow(e);
    EpisodeRowDecodes(e);
    DispatchPlayToken(m, e.id);
  }

  /** Pressing a navigation button of a catalog keyboard asks for the
      neighbouring catalog page and nothing else. */
  lemma NavButtonPress(m: Message, page: Option<int>, totalpage: int, k: nat)
    requires k < |NavRow(page, totalpage)|
    ensures page.Some?
    ensures Dispatch(Press(m, NavRow(page, totalpage)[k].callbackData)) ==
              [CatalogReply(ChatId(m.chat), Greeting(m.chat),
                            Some(if NavRow(page, totalpage)[k].text == "Previous" then page.value - 1 else page.value + 1))]
  {
    var b := NavRow(page, totalpage)[k];
    var target := if b.text == "Previous" then page.value - 1 else page.value + 1;
    NavRowTokens(page, totalpage, k);
    assert b.callbackData == Token(Page, target);
    DispatchPageToken(m, target);
  }

  // ---------------------------------------------------------------------
  // What is sent

  /** The catalog reply greets the chat and carries the keyboard of the
      requested page: its episode rows, then its navigation row if any. */
  lemma CatalogReplySent(a: Action, catalog: Option<int> -> CatalogPage, playback: Option<int> -> Playback)
    requires a.CatalogReply?
    ensures var out := Perform(a, catalog, playback);
            out.chatId == a.chatId && out.text == a.greeting &&
            out.keyboard == Some(KeyboardFor(a.page, catalog(a.page))) &&
            out.keyboard.value[..|catalog(a.page).result|] == EpisodeRows(catalog(a.page).result)
  {
  }

  /** A successful playback reply is the stream-test link, whose `manifest`
      and `license` parameters read back as the first entry's URLs. */
  lemma PlayReplySent(a: Action, catalog: Option<int> -> CatalogPage, playback: Option<int> -> Playback)
    requires a.PlayReply? && playback(a.id).Playback? && |playback(a.id).playbackUrls| > 0
    ensures var out := Perform(a, catalog, playback);
            var first := playback(a.id).playbackUrls[0];
            out.chatId == a.chatId && out.keyboard.None? &&
            out.text == PreviewLink(first.url, first.licenseurl) &&
            QueryParam(out.text, "manifest") == Some(first.url) &&
            QueryParam(out.text, "license") == Some(first.licenseurl) &&
            QueryParam(out.text, "drm") == Some("widevine") &&
            QueryParam(out.text, "format") == Some("dash")
  {
  }

  /** A failed playback tells the chat to retry and quotes the failure
      message after "[Error] ". */
  lemma PlayFailureSent(a: Action, catalog: Option<int> -> CatalogPage, playback: Option<int> -> Playback)
    requires a.PlayReply? && playback(a.id).UpstreamError?
    ensures var out := Perform(a, catalog, playback);
            out.chatId == a.chatId && out.keyboard.None? &&
            out.text[..|RetryPrompt|] == RetryPrompt &&
            out.text[|RetryPrompt|..] == "[Error] " + Shown(playback(a.id).message)
  {
  }

  /** The handler sends one message per action, in the order of the
      actions, to the chat of the message it read. */
  lemma RepliesFollowDispatch(u: Update, catalog: Option<int> -> CatalogPage, playback: Option<int> -> Playback)
    requires EffectiveMessage(u).Some? && PlaybackUsable(u, playback)
    ensures |Replies(u, catalog, playback)| == |Dispatch(u)|
    ensures forall k :: 0 <= k < |Dispatch(u)| ==>
              Replies(u, catalog, playback)[k].chatId == ChatId(EffectiveMessage(u).value.chat)
  {
  }
}
