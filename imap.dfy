/**
 * The scan cycle of utils/imap_utils.py over an abstract mailbox: log in,
 * SEARCH UNSEEN (section 6.4.4 of RFC 3501), FETCH (RFC822) each message
 * (section 6.4.5), render and send it, STORE +FLAGS \Seen (section 6.4.6),
 * and always close and log out at the end. What the server, the parser,
 * the clock and Telegram answer comes from an `Env` of oracles; the calls
 * made are recorded in an event log.
 */
module Imap {
  import opened Wrappers
  import opened PyStr
  import opened Parsing
  import C = Config

  type Bytes = seq<bv8>

  /** A message sequence number, as the tokens of the SEARCH reply name it. */
  type Uid = nat

  // ---------------------------------------------------------------------
  // The FETCH reply
  // ---------------------------------------------------------------------

  /** One element of the list `fetch` returns: a tuple of byte strings, bare bytes, or anything else. */
  datatype FetchItem = Tuple(items: seq<Bytes>) | BytesItem(b: Bytes) | OtherItem

  /** The element holds the raw message: a tuple whose second item is non-empty, or bytes. */
  predicate Yields(item: FetchItem) {
    (item.Tuple? && |item.items| >= 2 && item.items[1] != []) || item.BytesItem?
  }

  function RawOf(item: FetchItem): Bytes
    requires Yields(item)
  {
    if item.Tuple? then item.items[1] else item.b
  }

  /** `_extract_raw_from_fetch`: the raw message of the first element that holds one. */
  function ExtractRawFromFetch(data: seq<FetchItem>): Option<Bytes> {
    if data == [] then None
    else if Yields(data[0]) then Some(RawOf(data[0]))
    else ExtractRawFromFetch(data[1..])
  }

  /** No raw message exactly when no element holds one; otherwise the first holder's. */
  lemma {:induction false} ExtractRawFirst(data: seq<FetchItem>)
    ensures ExtractRawFromFetch(data).None? <==> forall i :: 0 <= i < |data| ==> !Yields(data[i])
    ensures ExtractRawFromFetch(data).Some? ==>
      exists i :: 0 <= i < |data| && Yields(data[i]) && ExtractRawFromFetch(data).value == RawOf(data[i])
                 && forall j :: 0 <= j < i ==> !Yields(data[j])
    decreases |data|
  {
    if data != [] && !Yields(data[0]) {
      ExtractRawFirst(data[1..]);
      assert forall i :: 0 < i < |data| ==> data[i] == data[1..][i - 1];
      if ExtractRawFromFetch(data).Some? {
        var k :| 0 <= k < |data[1..]| && Yields(data[1..][k]) && ExtractRawFromFetch(data).value == RawOf(data[1..][k])
                 && forall j :: 0 <= j < k ==> !Yields(data[1..][j]);
        assert Yields(data[k + 1]) && forall j :: 0 <= j < k + 1 ==> !Yields(data[j]);
      }
    }
  }

  // ---------------------------------------------------------------------
  // The Telegram request
  // ---------------------------------------------------------------------

  const ApiPrefix := "https://api.telegram.org/bot"
  const SendMessage := "/sendMessage"

  /** The form `send_telegram_sync` posts; the text is `None` for a stale message. */
  datatype Payload = Payload(url: string, chatId: string, text: Option<string>,
                             parseMode: string, disableWebPagePreview: bool)

  /** What `send_telegram_sync` posts for this token, chat and text. */
  function TelegramPayload(botToken: string, chatId: string, text: Option<string>): (p: Payload)
    ensures StartsWith(p.url, ApiPrefix) && |p.url| == |ApiPrefix| + |botToken| + |SendMessage|
    ensures p.url[|ApiPrefix|..|p.url| - |SendMessage|] == botToken
    ensures p.url[|p.url| - |SendMessage|..] == SendMessage
    ensures p.chatId == chatId && p.text == text
    ensures p.parseMode == "HTML" && p.disableWebPagePreview
  {
    var url := ApiPrefix + botToken + SendMessage;
    assert url[..|ApiPrefix|] == ApiPrefix;
    assert url[|ApiPrefix|..|url| - |SendMessage|] == botToken;
    assert url[|url| - |SendMessage|..] == SendMessage;
    Payload(url, chatId, text, "HTML", true)
  }

  /** The bot token is read back from the URL, so distinct bots get distinct URLs. */
  lemma PayloadUrlNamesBot(t1: string, t2: string, c1: string, c2: string, x1: Option<string>, x2: Option<string>)
    requires TelegramPayload(t1, c1, x1).url == TelegramPayload(t2, c2, x2).url
    ensures t1 == t2
  {
  }

  // ---------------------------------------------------------------------
  // What the outside world answers
  // ---------------------------------------------------------------------

  /** `m.login`: accepted, refused with `IMAP4.error`, or failing with another exception. */
  datatype LoginReply = LoginOk | LoginRejected | LoginCrashed

  /** `m.search(None, "UNSEEN")`: raises, or answers with a status. */
  datatype SearchReply = SearchRaised | SearchStatus(status: string)

  /** `m.fetch(uid, '(RFC822)')`: raises, or answers with a status and data. */
  datatype FetchReply = FetchRaised | FetchAnswer(status: string, data: seq<FetchItem>)

  /** `client.post`: raises, or answers with an HTTP status code. */
  datatype SendReply = SendRaised | Answered(code: int)

  /**
   * The oracles of one cycle. `connects` is false when `IMAP4_SSL` itself
   * raises; `render` is `make_telegram_text` applied to a parsed message
   * at the time it is handled (`RendersAsSource` ties it to
   * `MakeTelegramText` and the clock, `strptime` and `decode_header`
   * below); `implicitSeen` says whether the server sets \Seen on a
   * successful FETCH of RFC822, as section 6.4.5 of RFC 3501 has it.
   */
  datatype Env = Env(
    connects: bool,
    login: LoginReply,
    selectRaises: bool,
    search: SearchReply,
    fetch: Uid -> FetchReply,
    parse: Bytes -> Message,
    render: (Message, Uid) -> Rendered,
    now: Uid -> int,
    strptime: string -> Option<DateTime>,
    decodeHeader: string -> seq<HeaderChunk>,
    send: (Uid, Payload) -> SendReply,
    storeRaises: Uid -> bool,
    implicitSeen: bool)

  /** `render` is the renderer of utils/parsing_utils.py, run at `now(u)`. */
  ghost predicate RendersAsSource(env: Env) {
    forall m, u :: env.render(m, u) == MakeTelegramText(m, env.now(u), env.strptime, env.decodeHeader)
  }

  const Ok := "OK"

  /** The calls the cycle makes, in order. */
  datatype Event = Login | Logout | Select | Search | Fetch(uid: Uid) | Send(uid: Uid, payload: Payload) | Store(uid: Uid) | Close

  // ---------------------------------------------------------------------
  // The mailbox
  // ---------------------------------------------------------------------

  predicate Distinct(s: seq<Uid>) {
    forall i, j :: 0 <= i < j < |s| ==> s[i] != s[j]
  }

  /** What SEARCH UNSEEN answers: the messages without \Seen, in mailbox order. */
  function Unseen(messages: seq<Uid>, seen: set<Uid>): seq<Uid> {
    if messages == [] then []
    else
      var init, last := messages[..|messages| - 1], messages[|messages| - 1];
      Unseen(init, seen) + (if last in seen then [] else [last])
  }

  /** SEARCH UNSEEN finds exactly the messages without \Seen, each once when the mailbox has no duplicates. */
  lemma {:induction false} UnseenIsFilter(messages: seq<Uid>, seen: set<Uid>)
    ensures forall u :: u in Unseen(messages, seen) <==> u in messages && u !in seen
    ensures Distinct(messages) ==> Distinct(Unseen(messages, seen))
    decreases |messages|
  {
    if messages != [] {
      var init, last := messages[..|messages| - 1], messages[|messages| - 1];
      UnseenIsFilter(init, seen);
      assert messages == init + [last];
      assert Distinct(messages) ==> Distinct(init) && last !in init;
    }
  }

  /** The calls made for one message and the messages they leave with \Seen. */
  datatype Step = Step(events: seq<Event>, marked: set<Uid>)

  /** The \Seen the server sets on a successful FETCH, if it does. */
  function Implicit(env: Env, u: Uid): set<Uid> {
    if env.implicitSeen then {u} else {}
  }

  /** The parsed message of a FETCH that answered "OK" with a raw message, or `None`. */
  function FetchedMessage(env: Env, u: Uid): Option<Message> {
    match env.fetch(u)
    case FetchRaised => None
    case FetchAnswer(status, data) =>
      var raw := ExtractRawFromFetch(data);
      if status != Ok || raw.None? then None else Some(env.parse(raw.value))
  }

  /** The rendering of that message, or `None`. */
  function FetchedRendering(env: Env, u: Uid): Option<Rendered> {
    match FetchedMessage(env, u)
    case None => None
    case Some(m) => Some(env.render(m, u))
  }

  /** The text sent for a rendering: `None` for a stale message. */
  function SentText(r: Rendered): Option<string> {
    if r.Telegram? then Some(r.text) else None
  }

  function PayloadFor(cfg: C.Config, r: Rendered): Payload {
    TelegramPayload(cfg.telegramBotToken, cfg.telegramChatId, SentText(r))
  }

  /** Sending a rendered (or stale) message, then STORE +FLAGS \Seen. */
  function Forward(cfg: C.Config, env: Env, u: Uid, rendered: Rendered): (s: Step)
    ensures s.marked <= {u}
  {
    var payload := PayloadFor(cfg, rendered);
    if env.send(u, payload).SendRaised? then Step([Send(u, payload)], {})
    else if env.storeRaises(u) then Step([Send(u, payload), Store(u)], {})
    else Step([Send(u, payload), Store(u)], {u})
  }

  /** The body of the `try` in the loop of `process_unseen_and_forward`, for one message. */
  function Handle(cfg: C.Config, env: Env, u: Uid): (s: Step)
    ensures s.marked <= {u}
  {
    var implicit := if FetchedOk(env, u) then Implicit(env, u) else {};
    match FetchedRendering(env, u)
    case None => Step([Fetch(u)], implicit)
    case Some(rendered) =>
      if rendered.Failed? then Step([Fetch(u)], implicit)
      else
        var forward := Forward(cfg, env, u, rendered);
        Step([Fetch(u)] + forward.events, implicit + forward.marked)
  }

  /** The message was fetched, rendered (or found stale), sent without exception and stored. */
  predicate Delivered(cfg: C.Config, env: Env, u: Uid) {
    var r := FetchedRendering(env, u);
    r.Some? && !r.value.Failed? && !env.send(u, PayloadFor(cfg, r.value)).SendRaised? && !env.storeRaises(u)
  }

  /** The FETCH answered "OK". */
  predicate FetchedOk(env: Env, u: Uid) {
    env.fetch(u).FetchAnswer? && env.fetch(u).status == Ok
  }

  /** A message ends with \Seen exactly when it was delivered, or the server marked it on FETCH. */
  lemma HandleMarks(cfg: C.Config, env: Env, u: Uid)
    ensures u in Handle(cfg, env, u).marked <==> Delivered(cfg, env, u) || (env.implicitSeen && FetchedOk(env, u))
  {
  }

  /** STORE is issued only after a successful FETCH, rendering and send. */
  lemma HandleStores(cfg: C.Config, env: Env, u: Uid)
    ensures Store(u) in Handle(cfg, env, u).events <==>
      var r := FetchedRendering(env, u);
      r.Some? && !r.value.Failed? && !env.send(u, PayloadFor(cfg, r.value)).SendRaised?
  {
  }

  /** Whatever status code Telegram answers with, 200 or not, the message is marked. */
  lemma RejectedSendStillMarked(cfg: C.Config, env: Env, u: Uid)
    requires FetchedRendering(env, u).Some? && !FetchedRendering(env, u).value.Failed?
    requires env.send(u, PayloadFor(cfg, FetchedRendering(env, u).value)).Answered?
    requires !env.storeRaises(u)
    ensures u in Handle(cfg, env, u).marked
  {
  }

  /** A stale message is still sent, without text. */
  lemma StaleSentWithoutText(cfg: C.Config, env: Env, u: Uid)
    requires FetchedRendering(env, u) == Some(Stale)
    ensures |Handle(cfg, env, u).events| >= 2
    ensures Handle(cfg, env, u).events[1] == Send(u, TelegramPayload(cfg.telegramBotToken, cfg.telegramChatId, None))
  {
  }

  /** A message whose rendering raises (no date, say) is never sent and, unless the server marks it on FETCH, never marked. */
  lemma FailedRenderNotSent(cfg: C.Config, env: Env, u: Uid)
    requires FetchedRendering(env, u).Some? && FetchedRendering(env, u).value.Failed?
    ensures Handle(cfg, env, u).events == [Fetch(u)]
    ensures Handle(cfg, env, u).marked == Implicit(env, u)
  {
  }

  // ---------------------------------------------------------------------
  // The cycle
  // ---------------------------------------------------------------------

  /** `Handle` for the given configuration and environment, as a value. */
  function Handler(cfg: C.Config, env: Env): Uid -> Step {
    (u: Uid) => Handle(cfg, env, u)
  }

  /** The events of the loop over `uids`, each message handled by `handle`. */
  function LoopEvents(handle: Uid -> Step, uids: seq<Uid>): seq<Event> {
    if uids == [] then []
    else LoopEvents(handle, uids[..|uids| - 1]) + handle(uids[|uids| - 1]).events
  }

  /** The messages the loop over `uids` leaves with \Seen. */
  function LoopMarked(handle: Uid -> Step, uids: seq<Uid>): set<Uid> {
    if uids == [] then {}
    else LoopMarked(handle, uids[..|uids| - 1]) + handle(uids[|uids| - 1]).marked
  }

  /** The calls of a cycle, the messages it marks and whether it ends with an exception. */
  datatype Trace = Trace(events: seq<Event>, marked: set<Uid>, raised: bool)

  /** The `try` block after a successful login: select, search, and the loop over the unseen messages. */
  function Scan(cfg: C.Config, env: Env, messages: seq<Uid>, seen: set<Uid>): Trace {
    if env.selectRaises then Trace([Select], {}, true)
    else
      match env.search
      case SearchRaised => Trace([Select, Search], {}, true)
      case SearchStatus(status) =>
        var uids := Unseen(messages, seen);
        if status != Ok || uids == [] then Trace([Select, Search], {}, false)
        else Trace([Select, Search] + LoopEvents(Handler(cfg, env), uids), LoopMarked(Handler(cfg, env), uids), false)
  }

  /**
   * `process_unseen_and_forward` on a mailbox holding `messages`, of which
   * `seen` carry \Seen; the `finally` block closes (a failure there is
   * swallowed) and logs out.
   */
  function Cycle(cfg: C.Config, env: Env, messages: seq<Uid>, seen: set<Uid>): Trace {
    if !env.connects then Trace([], {}, true)
    else
      match env.login
      case LoginRejected => Trace([Login, Logout], {}, false)
      case LoginCrashed => Trace([Login], {}, true)
      case LoginOk =>
        var scan := Scan(cfg, env, messages, seen);
        Trace([Login] + scan.events + [Close, Logout], scan.marked, scan.raised)
  }

  /** The messages fetched, in order. */
  function Fetches(events: seq<Event>): seq<Uid> {
    if events == [] then []
    else Fetches(events[..|events| - 1]) + (if events[|events| - 1].Fetch? then [events[|events| - 1].uid] else [])
  }

  lemma {:induction false} FetchesAppend(a: seq<Event>, b: seq<Event>)
    ensures Fetches(a + b) == Fetches(a) + Fetches(b)
    decreases |b|
  {
    if b == [] {
      assert a + b == a;
    } else {
      assert (a + b)[..|a + b| - 1] == a + b[..|b| - 1];
      assert (a + b)[|a + b| - 1] == b[|b| - 1];
      FetchesAppend(a, b[..|b| - 1]);
    }
  }

  /** Handling a message fetches it once, and nothing else. */
  lemma HandleFetchesOnce(cfg: C.Config, env: Env, u: Uid)
    ensures Fetches(Handle(cfg, env, u).events) == [u]
  {
    var s := Handle(cfg, env, u);
    FetchesAppend([Fetch(u)], s.events[1..]);
    assert s.events == [Fetch(u)] + s.events[1..];
    assert Fetches([Fetch(u)]) == [u] by {
      assert [Fetch(u)][..0] == [];
    }
    var rest := s.events[1..];
    assert rest == [] || rest == [Send(u, PayloadFor(cfg, FetchedRendering(env, u).value))]
        || rest == [Send(u, PayloadFor(cfg, FetchedRendering(env, u).value)), Store(u)];
    if rest != [] {
      FetchesAppend(rest[..1], rest[1..]);
      assert rest[..1][..0] == [] && rest == rest[..1] + rest[1..];
      assert rest[1..] == [] || rest[1..][..0] == [];
    }
  }

  lemma {:induction false} LoopAppend(handle: Uid -> Step, a: seq<Uid>, b: seq<Uid>)
    ensures LoopEvents(handle, a + b) == LoopEvents(handle, a) + LoopEvents(handle, b)
    ensures LoopMarked(handle, a + b) == LoopMarked(handle, a) + LoopMarked(handle, b)
    decreases |b|
  {
    if b == [] {
      assert a + b == a;
    } else {
      var init, last := b[..|b| - 1], b[|b| - 1];
      assert (a + b)[..|a + b| - 1] == a + init;
      assert (a + b)[|a + b| - 1] == last;
      LoopAppend(handle, a, init);
      assert LoopEvents(handle, a + b) == LoopEvents(handle, a) + LoopEvents(handle, init) + handle(last).events;
    }
  }

  /** One more message adds its own handling to the loop. */
  lemma LoopStep(handle: Uid -> Step, uids: seq<Uid>, i: nat)
    requires i < |uids|
    ensures LoopEvents(handle, uids[..i + 1]) == LoopEvents(handle, uids[..i]) + handle(uids[i]).events
    ensures LoopMarked(handle, uids[..i + 1]) == LoopMarked(handle, uids[..i]) + handle(uids[i]).marked
  {
    assert uids[..i + 1][..i] == uids[..i];
  }

  /** A loop whose handler fetches each message once fetches exactly its messages, in order. */
  lemma {:induction false} LoopFetches(handle: Uid -> Step, uids: seq<Uid>)
    requires forall u: Uid :: Fetches(handle(u).events) == [u]
    ensures Fetches(LoopEvents(handle, uids)) == uids
    decreases |uids|
  {
    if uids != [] {
      var init, last := uids[..|uids| - 1], uids[|uids| - 1];
      LoopFetches(handle, init);
      FetchesAppend(LoopEvents(handle, init), handle(last).events);
      assert uids == init + [last];
    }
  }

  /** A message ends the loop with \Seen exactly when it is one of the loop's and its own handling marks it. */
  lemma {:induction false} LoopMarkedMembers(handle: Uid -> Step, uids: seq<Uid>, v: Uid)
    requires forall u: Uid :: handle(u).marked <= {u}
    ensures v in LoopMarked(handle, uids) <==> v in uids && v in handle(v).marked
    decreases |uids|
  {
    if uids != [] {
      var init, last := uids[..|uids| - 1], uids[|uids| - 1];
      LoopMarkedMembers(handle, init, v);
      assert uids == init + [last];
      assert v in uids <==> v in init || v == last;
      assert handle(last).marked <= {last};
    }
  }

  /** The search and the loop run only after a login, a select and a search that succeed. */
  predicate Searched(env: Env) {
    env.connects && env.login == LoginOk && !env.selectRaises && env.search == SearchStatus(Ok)
  }

  /** A failed login selects, searches, fetches and stores nothing; a refused one logs out. */
  lemma LoginFailureTouchesNothing(cfg: C.Config, env: Env, messages: seq<Uid>, seen: set<Uid>)
    requires env.login != LoginOk
    ensures var t := Cycle(cfg, env, messages, seen);
      t.marked == {} && (forall e :: e in t.events ==> e == Login || e == Logout)
      && (env.connects && env.login == LoginRejected ==> t.events == [Login, Logout] && !t.raised)
  {
  }

  /** A failed search, or one that finds nothing, fetches and stores nothing. */
  lemma NothingFetchedWithoutUnseen(cfg: C.Config, env: Env, messages: seq<Uid>, seen: set<Uid>)
    requires env.connects && env.login == LoginOk && !env.selectRaises && env.search.SearchStatus?
    requires env.search.status != Ok || Unseen(messages, seen) == []
    ensures Cycle(cfg, env, messages, seen) == Trace([Login, Select, Search, Close, Logout], {}, false)
  {
  }

  /** Events that are not fetches fetch nothing. */
  lemma {:induction false} NoFetches(events: seq<Event>)
    requires forall i :: 0 <= i < |events| ==> !events[i].Fetch?
    ensures Fetches(events) == []
    decreases |events|
  {
    if events != [] {
      NoFetches(events[..|events| - 1]);
    }
  }

  /** The select and the search fetch nothing; the loop after them fetches its messages. */
  lemma SearchThenLoopFetches(cfg: C.Config, env: Env, uids: seq<Uid>)
    ensures Fetches([Select, Search] + LoopEvents(Handler(cfg, env), uids)) == uids
  {
    var h := Handler(cfg, env);
    assert Fetches(LoopEvents(h, uids)) == uids by {
      forall v: Uid ensures Fetches(h(v).events) == [v] {
        HandleFetchesOnce(cfg, env, v);
      }
      LoopFetches(h, uids);
    }
    NoFetches([Select, Search]);
    FetchesAppend([Select, Search], LoopEvents(h, uids));
  }

  /** The `try` block fetches the unseen messages when the select and the search succeed, and nothing otherwise. */
  lemma ScanFetches(cfg: C.Config, env: Env, messages: seq<Uid>, seen: set<Uid>)
    ensures Fetches(Scan(cfg, env, messages, seen).events)
         == if !env.selectRaises && env.search == SearchStatus(Ok) then Unseen(messages, seen) else []
  {
    var uids := Unseen(messages, seen);
    if env.selectRaises {
      NoFetches([Select]);
    } else if env.search != SearchStatus(Ok) || uids == [] {
      NoFetches([Select, Search]);
    } else {
      SearchThenLoopFetches(cfg, env, uids);
    }
  }

  /**
   * The cycle fetches the unseen messages in search order, each once, and
   * nothing when the login, the select or the search fails.
   */
  lemma CycleFetches(cfg: C.Config, env: Env, messages: seq<Uid>, seen: set<Uid>)
    requires Distinct(messages)
    ensures var f := Fetches(Cycle(cfg, env, messages, seen).events);
      f == (if Searched(env) then Unseen(messages, seen) else []) && Distinct(f)
  {
    if !env.connects {
    } else if env.login == LoginRejected {
      NoFetches([Login, Logout]);
    } else if env.login == LoginCrashed {
      NoFetches([Login]);
    } else {
      var events := Scan(cfg, env, messages, seen).events;
      assert Cycle(cfg, env, messages, seen).events == [Login] + events + [Close, Logout];
      assert Fetches(events) == if Searched(env) then Unseen(messages, seen) else [] by {
        ScanFetches(cfg, env, messages, seen);
      }
      NoFetches([Login]);
      NoFetches([Close, Logout]);
      FetchesAppend([Login] + events, [Close, Logout]);
      FetchesAppend([Login], events);
      UnseenIsFilter(messages, seen);
    }
  }

  /**
   * A message ends the cycle with \Seen exactly when the search found it
   * and it was delivered, or the server marked it on a successful FETCH.
   */
  lemma CycleMarks(cfg: C.Config, env: Env, messages: seq<Uid>, seen: set<Uid>, u: Uid)
    ensures u in Cycle(cfg, env, messages, seen).marked <==>
      Searched(env) && u in Unseen(messages, seen)
      && (Delivered(cfg, env, u) || (env.implicitSeen && FetchedOk(env, u)))
  {
    UnseenIsFilter(messages, seen);
    if Searched(env) && Unseen(messages, seen) != [] {
      LoopMarkedMembers(Handler(cfg, env), Unseen(messages, seen), u);
      HandleMarks(cfg, env, u);
    }
  }

  /** After a successful login the cycle always ends by closing and logging out. */
  lemma CleanupLast(cfg: C.Config, env: Env, messages: seq<Uid>, seen: set<Uid>)
    requires env.connects && env.login == LoginOk
    ensures var e := Cycle(cfg, env, messages, seen).events;
      |e| >= 4 && e[0] == Login && e[1] == Select && e[|e| - 2] == Close && e[|e| - 1] == Logout
  {
  }

  /** A marked message is not found by the next SEARCH UNSEEN. */
  lemma MarkedNotSearchedAgain(cfg: C.Config, env: Env, messages: seq<Uid>, seen: set<Uid>, u: Uid)
    requires u in Cycle(cfg, env, messages, seen).marked
    ensures u !in Unseen(messages, seen + Cycle(cfg, env, messages, seen).marked)
  {
    UnseenIsFilter(messages, seen + Cycle(cfg, env, messages, seen).marked);
  }

  /**
   * Unless the server marks messages on FETCH, a message the search found
   * but that was not delivered is found again by the next search.
   */
  lemma UndeliveredSearchedAgain(cfg: C.Config, env: Env, messages: seq<Uid>, seen: set<Uid>, u: Uid)
    requires !env.implicitSeen && u in Unseen(messages, seen) && !Delivered(cfg, env, u)
    ensures u in Unseen(messages, seen + Cycle(cfg, env, messages, seen).marked)
  {
    CycleMarks(cfg, env, messages, seen, u);
    UnseenIsFilter(messages, seen);
    UnseenIsFilter(messages, seen + Cycle(cfg, env, messages, seen).marked);
  }

  /**
   * When the server marks messages on FETCH, a message whose rendering
   * raises is never sent yet never found again: it is lost.
   */
  lemma FailedRenderLostWithImplicitSeen(cfg: C.Config, env: Env, messages: seq<Uid>, seen: set<Uid>, u: Uid)
    requires env.implicitSeen && Searched(env) && u in Unseen(messages, seen)
    requires FetchedRendering(env, u).Some? && FetchedRendering(env, u).value.Failed?
    ensures Handle(cfg, env, u).events == [Fetch(u)]
    ensures u !in Unseen(messages, seen + Cycle(cfg, env, messages, seen).marked)
  {
    CycleMarks(cfg, env, messages, seen, u);
    UnseenIsFilter(messages, seen + Cycle(cfg, env, messages, seen).marked);
  }

  /** With the source's renderer, a fetched message is rendered by `MakeTelegramText`. */
  lemma SourceRendering(env: Env, u: Uid, m: Message)
    requires RendersAsSource(env) && FetchedMessage(env, u) == Some(m)
    ensures FetchedRendering(env, u) == Some(MakeTelegramText(m, env.now(u), env.strptime, env.decodeHeader))
  {
  }

  /** With the source's renderer, a message whose date does not parse is never sent. */
  lemma UnparsedDateNeverSent(cfg: C.Config, env: Env, u: Uid, m: Message)
    requires RendersAsSource(env)
    requires FetchedMessage(env, u) == Some(m) && MessageDate(m, env.strptime).None?
    ensures Handle(cfg, env, u).events == [Fetch(u)]
    ensures Handle(cfg, env, u).marked == Implicit(env, u)
  {
    SourceRendering(env, u, m);
    FailedRenderNotSent(cfg, env, u);
  }

  /** With the source's renderer, a message older than five days is sent with no text. */
  lemma StaleSentEmpty(cfg: C.Config, env: Env, u: Uid, m: Message)
    requires RendersAsSource(env)
    requires FetchedMessage(env, u) == Some(m) && MessageDate(m, env.strptime).Some?
    requires IsStale(env.now(u), MessageDate(m, env.strptime).value)
    ensures |Handle(cfg, env, u).events| >= 2
    ensures Handle(cfg, env, u).events[1] == Send(u, TelegramPayload(cfg.telegramBotToken, cfg.telegramChatId, None))
  {
    assert FetchedRendering(env, u) == Some(Stale) by {
      SourceRendering(env, u, m);
    }
    StaleSentWithoutText(cfg, env, u);
  }

  /**
   * Plain associativity of concatenation, stated once for event logs so
   * that the session methods can appeal to it without the solver having to
   * find it in a larger context.
   */
  lemma Assoc(a: seq<Event>, b: seq<Event>, c: seq<Event>)
    ensures (a + b) + c == a + (b + c)
  {
  }

  class Session {
    const messages: seq<Uid>
    var seen: set<Uid>
    var log: seq<Event>

    ghost predicate Valid() {
      Distinct(messages)
    }

    constructor(messages: seq<Uid>, seen: set<Uid>)
      requires Distinct(messages)
      ensures Valid()
      ensures this.messages == messages && this.seen == seen && log == []
    {
      this.messages := messages;
      this.seen := seen;
      log := [];
    }

    /** One message: fetch, extract, render, send, store, with the exceptions caught. */
    method HandleUid(cfg: C.Config, env: Env, u: Uid)
      modifies this
      ensures log == old(log) + Handle(cfg, env, u).events
      ensures seen == old(seen) + Handle(cfg, env, u).marked
    {
      log := log + [Fetch(u)];
      var reply := env.fetch(u);
      if reply.FetchRaised? {
        assert Handle(cfg, env, u) == Step([Fetch(u)], {});
        return;
      }
      if reply.status != Ok {
        assert Handle(cfg, env, u) == Step([Fetch(u)], {});
        return;
      }
      ghost var implicit := Implicit(env, u);
      if env.implicitSeen {
        seen := seen + {u};
      }
      assert seen == old(seen) + implicit;
      var raw := ExtractRawFromFetch(reply.data);
      if raw.None? {
        assert Handle(cfg, env, u) == Step([Fetch(u)], implicit);
        return;
      }
      var rendered := env.render(env.parse(raw.value), u);
      assert FetchedRendering(env, u) == Some(rendered);
      if rendered.Failed? {
        assert Handle(cfg, env, u) == Step([Fetch(u)], implicit);
        return;
      }
      ghost var forward := Forward(cfg, env, u, rendered);
      assert Handle(cfg, env, u) == Step([Fetch(u)] + forward.events, implicit + forward.marked);
      ghost var log1, seen1 := log, seen;
      SendAndStore(cfg, env, u, rendered);
      assert log == log1 + forward.events && log1 == old(log) + [Fetch(u)];
      assert log == old(log) + ([Fetch(u)] + forward.events);
    }

    /** `send_telegram_sync`, then `m.store(uid, '+FLAGS', '\\Seen')`. */
    method SendAndStore(cfg: C.Config, env: Env, u: Uid, rendered: Rendered)
      modifies this
      ensures log == old(log) + Forward(cfg, env, u, rendered).events
      ensures seen == old(seen) + Forward(cfg, env, u, rendered).marked
    {
      var payload := TelegramPayload(cfg.telegramBotToken, cfg.telegramChatId, SentText(rendered));
      log := log + [Send(u, payload)];
      if env.send(u, payload).SendRaised? {
        return;
      }
      log := log + [Store(u)];
      if !env.storeRaises(u) {
        seen := seen + {u};
      }
    }

    /** `process_unseen_and_forward`; `raised` says the cycle ends with an exception. */
    method ProcessUnseenAndForward(cfg: C.Config, env: Env) returns (raised: bool)
      requires Valid()
      modifies this
      ensures Valid()
      ensures log == old(log) + Cycle(cfg, env, messages, old(seen)).events
      ensures seen == old(seen) + Cycle(cfg, env, messages, old(seen)).marked
      ensures raised == Cycle(cfg, env, messages, old(seen)).raised
      ensures var f := Fetches(log[|old(log)|..]);
        f == (if Searched(env) then Unseen(messages, old(seen)) else []) && Distinct(f)
    {
      CycleFetches(cfg, env, messages, seen);
      raised := RunCycle(cfg, env);
      assert log[|old(log)|..] == Cycle(cfg, env, messages, old(seen)).events;
    }

    /** The body of `process_unseen_and_forward`: connect, log in, scan, log out. */
    method RunCycle(cfg: C.Config, env: Env) returns (raised: bool)
      modifies this
      ensures log == old(log) + Cycle(cfg, env, messages, old(seen)).events
      ensures seen == old(seen) + Cycle(cfg, env, messages, old(seen)).marked
      ensures raised == Cycle(cfg, env, messages, old(seen)).raised
    {
      if !env.connects {
        assert log == old(log) + [];
        return true;
      }
      log := log + [Login];
      if env.login.LoginRejected? {
        log := log + [Logout];
        assert log == old(log) + [Login, Logout];
        return false;
      } else if env.login.LoginCrashed? {
        return true;
      }
      ghost var scan := Scan(cfg, env, messages, seen);
      assert Cycle(cfg, env, messages, seen) == Trace([Login] + scan.events + [Close, Logout], scan.marked, scan.raised);
      raised := SelectAndForward(cfg, env);
      log := log + [Close, Logout];
      assert log == old(log) + ([Login] + scan.events + [Close, Logout]);
    }

    /** The `try` block: select, search, then each unseen message in turn. */
    method SelectAndForward(cfg: C.Config, env: Env) returns (raised: bool)
      modifies this
      ensures log == old(log) + Scan(cfg, env, messages, old(seen)).events
      ensures seen == old(seen) + Scan(cfg, env, messages, old(seen)).marked
      ensures raised == Scan(cfg, env, messages, old(seen)).raised
    {
      ghost var t := Scan(cfg, env, messages, seen);
      log := log + [Select];
      if env.selectRaises {
        assert t == Trace([Select], {}, true);
        return true;
      }
      log := log + [Search];
      assert log == old(log) + [Select, Search];
      var uids := Unseen(messages, seen);
      if env.search.SearchRaised? || env.search.status != Ok || uids == [] {
        assert t == Trace([Select, Search], {}, env.search.SearchRaised?);
        return env.search.SearchRaised?;
      }
      ghost var h := Handler(cfg, env);
      assert t == Trace([Select, Search] + LoopEvents(h, uids), LoopMarked(h, uids), false);
      ForwardEach(cfg, env, uids);
      assert log == old(log) + ([Select, Search] + LoopEvents(h, uids));
      return false;
    }

    /** The `for uid in uids` loop; an exception for one message does not stop the next. */
    method ForwardEach(cfg: C.Config, env: Env, uids: seq<Uid>)
      modifies this
      ensures log == old(log) + LoopEvents(Handler(cfg, env), uids)
      ensures seen == old(seen) + LoopMarked(Handler(cfg, env), uids)
    {
      ghost var h := Handler(cfg, env);
      for i := 0 to |uids|
        invariant log == old(log) + LoopEvents(h, uids[..i])
        invariant seen == old(seen) + LoopMarked(h, uids[..i])
      {
        ghost var log0, seen0 := log, seen;
        HandleUid(cfg, env, uids[i]);
        ghost var step := h(uids[i]);
        assert step == Handle(cfg, env, uids[i]);
        LoopStep(h, uids, i);
        Assoc(old(log), LoopEvents(h, uids[..i]), step.events);
      }
      assert uids[..|uids|] == uids;
    }
  }
}
