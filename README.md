# IMAP to Telegram forwarder, modelled in Dafny

The forwarder polls an IMAP mailbox for unseen messages. It renders each one
as a short HTML notification (subject, sender address, date and a preview of
the body) and posts it to a Telegram chat through the Bot API. Then it marks
the message `\Seen`. A small web service configures, starts, stops and
reports on the background worker that runs these polling cycles.

The project models three parts of the code:

- **Rendering** (`utils/parsing_utils.py`), as pure functions with lemmas:
  - body extraction, including the HTML-to-text reduction;
  - the preview;
  - `html.escape`, with html_to_text's `html.unescape` modelled over a fixed entity table;
  - subject decoding;
  - date parsing and staleness;
  - the sender-address search;
  - `make_telegram_text`.
- **One polling cycle** (`utils/imap_utils.py`), modelled against an abstract mailbox:
  - `_extract_raw_from_fetch` and the request `send_telegram_sync` posts are functions.
  - The IMAP server, the clock, the mail parser, the renderer and Telegram are oracles collected in `Imap.Env`. `Imap.RendersAsSource` ties the renderer to `Parsing.MakeTelegramText`.
  - The functions `Imap.Handle`, `Imap.Scan` and `Imap.Cycle` give the calls each step makes and the messages it leaves `\Seen`.
  - The class `Imap.Session` holds the mailbox flags and the call log. Its methods are proved to follow those functions.
- **The worker lifecycle** (`main.py`), as the class `Service.Forwarder`:
  - The fields are the configuration, every worker task created, the current task and its stop event.
  - Each endpoint's method states the whole new state and the reply.
  - The invariant `Service.Forwarder.Valid` says that at most one worker is ever live.

Files:

- `wrappers.dfy`: `Option`.
- `config.dfy`: the `Config` record and its defaults (`config.py`).
- `pystr.dfy`: the parts of Python's `str` used here: `isspace`, `strip`, `splitlines`, `join`, `split(c)[0]`, `in`.
- `html_text.dfy`: the regular-expression substitutions of `html_to_text`, `html.escape` and `html.unescape`.
- `parsing.dfy`: the renderer.
- `imap.dfy`: the FETCH reply, the Telegram request and the polling cycle.
- `service.dfy`: the web service's state machine.

Behaviour of the code worth noting:

- A message older than five days is still passed to `send_telegram_sync`, with no text, and then marked `\Seen`. It is not skipped without a call (`Imap.StaleSentWithoutText`).
- A message whose Date header does not parse is never forwarded. `parse_email_date` returns `None`, and the age comparison then raises (`Imap.UnparsedDateNeverSent`).
- A message is marked `\Seen` whatever status code Telegram answers with (`Imap.RejectedSendStillMarked`).
- The Subject header is HTML-escaped before `decode_header`. An encoded word is therefore decoded after escaping, so its text reaches the notification unescaped (`Parsing.EncodedSubjectUnescaped`).

## Model

| member | source | states |
|---|---|---|
| PyStr.Strip | utils/parsing_utils.py:33 | `str.strip`: the result has no surrounding whitespace, is empty exactly when the text is all whitespace, and leaves a trimmed text unchanged |
| PyStr.StripInfix | utils/parsing_utils.py:33 | `str.strip` gives an infix of the text: only whitespace comes before it and only whitespace after it |
| PyStr.StripTrailingSpaces | utils/parsing_utils.py:80 | whitespace appended to a text does not change what `strip` gives |
| PyStr.BeforeFirst | utils/parsing_utils.py:121 | `split(c)[0]` is a prefix without `c`, followed by `c` when shorter than the text |
| PyStr.SplitLines | utils/parsing_utils.py:80 | `splitlines` gives no lines exactly for the empty text; `LineEnd`, `SplitOneLine` and `JoinSplitLines` say where the lines break |
| PyStr.Join | utils/parsing_utils.py:83 | `"\n".join`: the parts with the separator between neighbours; `JoinSplitLines` states it undoes `splitlines` on "\n"-broken text |
| PyStr.LineEnd | utils/parsing_utils.py:80 | the first line of `splitlines` has no line break and stops at one |
| PyStr.JoinSplitLines | utils/parsing_utils.py:80-83 | joining the `splitlines` of a text with "\n" gives it back when its only breaks are "\n" and it does not end with one |
| PyStr.SplitOneLine | utils/parsing_utils.py:80 | a non-empty text without line breaks is one line |
| PyStr.Take | utils/parsing_utils.py:83 | `lines[:n]` is the prefix of exactly `min(n, len(lines))` lines |
| HtmlText.FindCI | utils/parsing_utils.py:61-64 | the case-insensitive search finds a match at or after a position with none between, or there is none at all |
| HtmlText.MatchEnd | utils/parsing_utils.py:61-65 | a pattern of `html_to_text` can only match at a '<' and consumes at least one character; what each pattern matches is stated by `LineBreakReplaced`, `ParagraphEndReplaced` and `BlockRemoved` |
| HtmlText.Sub | utils/parsing_utils.py:61-65 | `re.sub` scanning left to right; `SubAtMatch`, `RemovedAtMatch` and `SubWithoutBracket` state what it does at a match and away from '<' |
| HtmlText.Unescape | utils/parsing_utils.py:66 | `html.unescape` over the entity table; `UnescapeEscapeHtml` and `UnescapeWithoutAmpersand` are its partners |
| HtmlText.HtmlToText | utils/parsing_utils.py:55-67 | the five substitutions then `html.unescape`, in the source's order; the lemmas below state what they remove and rewrite |
| HtmlText.LineBreakReplaced | utils/parsing_utils.py:63 | `<br`, any whitespace, an optional '/', then '>', in any case, becomes one "\n" and the rest is substituted after it |
| HtmlText.UpperCaseLineBreak | utils/parsing_utils.py:63 | "<BR />" is replaced by "\n" |
| HtmlText.ParagraphEndReplaced | utils/parsing_utils.py:64 | `</p>` in any case becomes one "\n" |
| HtmlText.BlockRemoved | utils/parsing_utils.py:61-62 | a `<head…>` or `<style…>` block is removed through the FIRST closing tag after its '>' (the lazy `.*?`), in any case |
| HtmlText.SubAtMatch | utils/parsing_utils.py:63-64 | at a match, the replacement is emitted and the scan resumes after it |
| HtmlText.RemovedAtMatch | utils/parsing_utils.py:61-62 | at a match of a block, the block is dropped and the scan resumes after it |
| HtmlText.HtmlToTextOfEscaped | utils/parsing_utils.py:55-67 | entities are decoded after the tags are stripped: `html_to_text(html.escape(s)) == s`, so "&lt;b&gt;" gives "<b>" |
| HtmlText.EscapeHtml | utils/parsing_utils.py:103-104 | `html.escape` as its chain of replacements, '&' first; the `EscapeHtml…` lemmas state its effect |
| HtmlText.StripTagsLeavesNoTag | utils/parsing_utils.py:65 | after removing `<[^>]+>` nothing that pattern matches is left |
| HtmlText.StripTagsChars | utils/parsing_utils.py:65 | removing tags only removes characters |
| HtmlText.SubWithoutBracket | utils/parsing_utils.py:61-65 | none of the substitutions changes a text without '<' |
| HtmlText.UnescapeWithoutAmpersand | utils/parsing_utils.py:66 | `html.unescape` leaves a text without '&' unchanged |
| HtmlText.HtmlToTextPlain | utils/parsing_utils.py:55-67 | `html_to_text` leaves a text with neither '<' nor '&' unchanged |
| HtmlText.EscapeHtmlAppend | utils/parsing_utils.py:103-104 | `html.escape` of a concatenation is the concatenation of the escapes |
| HtmlText.EscapeHtmlChar | utils/parsing_utils.py:103-104 | the chain of replacements escapes each single character exactly as the per-character table does |
| HtmlText.EscapeHtmlIsPerCharacter | utils/parsing_utils.py:103-104 | the chain of replacements (with '&' first) equals escaping each character on its own |
| HtmlText.EscapeHtmlNoMarkup | utils/parsing_utils.py:103-104 | an escaped text holds no '<', '>', '"' or '\'' |
| HtmlText.UnescapeEscapeHtml | utils/parsing_utils.py:103-104 | `html.unescape(html.escape(s)) == s` for every text |
| HtmlText.EscapeHtmlNoLtRef | utils/parsing_utils.py:96 | escaping a text without '<' produces no "&lt;" |
| HtmlText.EscapeHtmlPlain | utils/parsing_utils.py:103-104 | a text without '&' and markup is escaped to itself |
| HtmlText.EscapeHtmlKeepsAbsent | utils/parsing_utils.py:103-104 | escaping introduces no character outside the references' own letters, digits, '&', '#' and ';' |
| Parsing.Chunks | utils/parsing_utils.py:17-31 | the collected parts are no more than the parts, and there are none exactly when no part has the type outside an attachment |
| Parsing.BodyText | utils/parsing_utils.py:13-52 | the extracted body has no surrounding whitespace |
| Parsing.ExtractTextFromEmail | utils/parsing_utils.py:13-52 | the loop over the walked parts computes the body of `BodyText` |
| Parsing.ChunksAppend | utils/parsing_utils.py:17-31 | collection distributes over concatenated part lists |
| Parsing.SkipUnwanted | utils/parsing_utils.py:20-26 | a part of another type, or an attachment, contributes nothing |
| Parsing.AttachmentIgnored | utils/parsing_utils.py:19-26 | a part whose Content-Disposition mentions "attachment" never changes the body |
| Parsing.NonPlainIgnoredWhenPlain | utils/parsing_utils.py:32-33 | once there is a text/plain part, HTML and other parts do not change the body |
| Parsing.HtmlFallback | utils/parsing_utils.py:34-36 | without text/plain parts the joined HTML parts are reduced as one HTML text |
| Parsing.NoTextParts | utils/parsing_utils.py:37 | a multipart message without text parts has an empty body |
| Parsing.SinglePartVerbatim | utils/parsing_utils.py:38-52 | a single non-HTML part that is already trimmed is its own body |
| Parsing.SinglePartHtmlWithoutMarkup | utils/parsing_utils.py:47-52 | a single HTML part without '<' and '&' gives the body that part would give as any other type |
| Parsing.Preview | utils/parsing_utils.py:80-87 | the preview is at most 601 characters, and "(no text body)" for a body of only whitespace |
| Parsing.PreviewCut | utils/parsing_utils.py:83-85 | a first ten lines longer than 600 characters are cut to 600 plus "…" |
| Parsing.PreviewWhole | utils/parsing_utils.py:80-85 | a trimmed body of at most 10 lines and 600 characters, broken only by "\n", is shown whole |
| Parsing.ParseEmailDate | utils/parsing_utils.py:119-122 | `strptime` on the text before the first '(', trimmed; `DateCore` and `DateCommentIgnored` state what reaches it |
| Parsing.IsStale | utils/parsing_utils.py:92 | the gate: more than five days, counted in microseconds, between the clock and the parsed date; `MakeTelegramText` returns nothing exactly when it holds |
| Parsing.DateCore | utils/parsing_utils.py:121 | what reaches `strptime` has no '(' and no surrounding whitespace |
| Parsing.BeforeFirstAt | utils/parsing_utils.py:121 | `split("(")[0]` stops at the first '(' |
| Parsing.BeforeFirstWithout | utils/parsing_utils.py:121 | `split("(")[0]` of a text without '(' is the whole text |
| Parsing.DateCommentIgnored | utils/parsing_utils.py:119-122 | a trailing parenthesised comment after whitespace does not change the parsed date |
| Parsing.SubjectText | utils/parsing_utils.py:107-116 | `decode_subj` raises exactly when some encoded chunk has an unknown charset |
| Parsing.DecodeSubj | utils/parsing_utils.py:107-116 | the loop computes `SubjectText` |
| Parsing.SubjectTextFails | utils/parsing_utils.py:112 | a single undecodable chunk makes the whole subject fail |
| Parsing.SubjectTextAppend | utils/parsing_utils.py:110-114 | decoding concatenates the chunks' texts in order |
| Parsing.SubjectOneEncoded | utils/parsing_utils.py:107-116 | a subject that is one encoded word decodes to that word's text |
| Parsing.LastGt | utils/parsing_utils.py:96 | where `(.*)&gt;` ends: a "&gt;" with no line break before it |
| Parsing.LastGtIsLast | utils/parsing_utils.py:96 | the greedy `(.*)&gt;` ends at the last "&gt;" of the line, and there is none when it fails |
| Parsing.SenderAddress | utils/parsing_utils.py:96 | `re.search(r"&lt;(.*)&gt;", …).group(1)`; `SenderAddressFirst` states what it finds |
| Parsing.SenderAddressFirst | utils/parsing_utils.py:96 | the search fails exactly when no position holds "&lt;" followed on its line by "&gt;"; otherwise it gives the text of the leftmost such position up to that line's last "&gt;" |
| Parsing.SenderSkip | utils/parsing_utils.py:96 | `re.search` finds the same address after dropping a prefix that holds no "&lt;" |
| Parsing.NoAngleNoAddress | utils/parsing_utils.py:96 | a From header without '<' yields no address, so rendering raises |
| Parsing.EscapeNameAddr | utils/parsing_utils.py:96 | escaping "name <addr>" gives the escaped name, "&lt;", the escaped address, "&gt;" |
| Parsing.NoLtRefInPrefix | utils/parsing_utils.py:96 | a prefix in which no '&' is followed by 'l' starts no "&lt;" |
| Parsing.LastGtAtEnd | utils/parsing_utils.py:96 | a line ending in "&gt;" is matched up to that reference |
| Parsing.SenderBetweenRefs | utils/parsing_utils.py:96 | the address found lies between the first "&lt;" and the last "&gt;" |
| Parsing.SenderAtRef | utils/parsing_utils.py:96 | a text that starts with "&lt;" and ends its line with "&gt;" yields what lies between |
| Parsing.NameAddrSender | utils/parsing_utils.py:96 | for a header "name <addr>" the From line shows the escaped address |
| Parsing.MakeTelegramText | utils/parsing_utils.py:70-100 | rendering raises for an unparsed date exactly when the date does not parse, and returns nothing exactly when the message is more than five days old |
| Parsing.MessageDate | utils/parsing_utils.py:78-90 | the Date header, "" when absent, escaped and then parsed; `MakeTelegramText` fails for the date exactly when this is None |
| Parsing.MessageSubject | utils/parsing_utils.py:95 | the Subject header, "(no subject)" when absent, escaped and then decoded; `RenderedLayout` and `EncodedSubjectUnescaped` place it in the text |
| Parsing.MessageSender | utils/parsing_utils.py:96 | the address searched for in the escaped From header, "(unknown sender)" when absent; `SenderAddressFirst` states the search |
| Parsing.MessagePreview | utils/parsing_utils.py:79-87 | the preview of the extracted body; `Preview`, `PreviewCut` and `PreviewWhole` state it |
| Parsing.RenderedLayout | utils/parsing_utils.py:89-100 | a rendered text has a parsed, fresh date, a decoded subject and an address, laid out in five lines |
| Parsing.Layout | utils/parsing_utils.py:95-99 | the f-string of five lines; `LayoutSubject` and `LayoutPreview` state where its parts sit |
| Parsing.LayoutPreview | utils/parsing_utils.py:95-99 | the escaped preview closes the text |
| Parsing.RenderedPreview | utils/parsing_utils.py:95-99 | a rendered text ends with the escaped preview, which holds no markup and unescapes to the preview |
| Parsing.RenderedNameAddr | utils/parsing_utils.py:76-100 | a fresh, decodable message from "name <addr>" renders to the five lines with the escaped address |
| Parsing.RenderedWithoutAddress | utils/parsing_utils.py:96 | a fresh message whose From header has no '<' makes rendering raise |
| Parsing.LayoutSubject | utils/parsing_utils.py:95 | the subject sits right after "<b>" |
| Parsing.EncodedSubjectUnescaped | utils/parsing_utils.py:95 | an encoded subject reaches the text as decoded, with no escaping after decoding |
| Parsing.EscapeDateComment | utils/parsing_utils.py:89-90 | escaping keeps the '(' of a date comment where it was |
| Parsing.RenderIgnoresDateComment | utils/parsing_utils.py:89-92 | a comment after the date does not change the rendering |
| Imap.ExtractRawFromFetch | utils/imap_utils.py:88-96 | the first element that is bytes, or a pair with a non-empty second part; `ExtractRawFirst` states it |
| Imap.ExtractRawFirst | utils/imap_utils.py:88-96 | there is no raw message exactly when no element holds one; otherwise it is that of the first element that does |
| Imap.TelegramPayload | utils/imap_utils.py:77-79 | the URL is the Bot API prefix, the token and "/sendMessage"; the form carries the chat, the text, "HTML" and true |
| Imap.PayloadUrlNamesBot | utils/imap_utils.py:78 | two tokens that give the same URL are the same token |
| Imap.Unseen | utils/imap_utils.py:44-48 | what SEARCH UNSEEN returns; `UnseenIsFilter` states it |
| Imap.UnseenIsFilter | utils/imap_utils.py:44-48 | SEARCH UNSEEN finds exactly the messages without `\Seen`, each once |
| Imap.Forward | utils/imap_utils.py:63-64 | sending and storing marks at most the message itself |
| Imap.Handle | utils/imap_utils.py:54-68 | handling one message marks at most that message |
| Imap.HandleMarks | utils/imap_utils.py:54-68 | a message ends `\Seen` exactly when it was delivered and stored, or the server marked it on FETCH |
| Imap.HandleStores | utils/imap_utils.py:55-64 | STORE is issued exactly after a successful FETCH, extraction, rendering and send |
| Imap.RejectedSendStillMarked | utils/imap_utils.py:63-64 | whatever status code Telegram answers with, 200 or not, the message is stored `\Seen` |
| Imap.StaleSentWithoutText | utils/imap_utils.py:61-63 | a stale message is sent with no text |
| Imap.FailedRenderNotSent | utils/imap_utils.py:61-68 | a message whose rendering raises is never sent and is marked only by the server |
| Imap.FetchesAppend | utils/imap_utils.py:53-55 | the fetches of two event lists concatenate |
| Imap.HandleFetchesOnce | utils/imap_utils.py:54-68 | handling a message fetches it once and nothing else |
| Imap.LoopAppend | utils/imap_utils.py:53-68 | the loop's calls and marks over concatenated lists concatenate |
| Imap.LoopStep | utils/imap_utils.py:53-68 | one more message adds its own handling to the loop |
| Imap.LoopFetches | utils/imap_utils.py:53-55 | the loop fetches exactly its messages, in order |
| Imap.LoopMarkedMembers | utils/imap_utils.py:53-68 | a message ends the loop marked exactly when it is one of the loop's and its own handling marks it |
| Imap.NoFetches | utils/imap_utils.py:37-51 | login, select, search, close and logout fetch nothing |
| Imap.SearchThenLoopFetches | utils/imap_utils.py:43-55 | select, search and the loop fetch exactly the loop's messages |
| Imap.LoginFailureTouchesNothing | utils/imap_utils.py:35-41 | a failed login selects, searches, fetches and stores nothing; a refused one logs out without an exception |
| Imap.NothingFetchedWithoutUnseen | utils/imap_utils.py:44-51 | a search that fails or finds nothing leads to no fetch and no store, then close and logout |
| Imap.Scan | utils/imap_utils.py:42-68 | the `try` block's calls and marks; `ScanFetches` and `NothingFetchedWithoutUnseen` are its partners |
| Imap.Cycle | utils/imap_utils.py:29-74 | a whole cycle's calls, marks and whether it raises; `CycleFetches`, `CycleMarks` and `CleanupLast` are its partners |
| Imap.ScanFetches | utils/imap_utils.py:42-55 | the `try` block fetches the unseen messages when select and search succeed, and nothing otherwise |
| Imap.CycleFetches | utils/imap_utils.py:29-74 | a cycle fetches the unseen messages in search order, each once, and nothing when login, select or search fails |
| Imap.CycleMarks | utils/imap_utils.py:29-74 | a message ends the cycle `\Seen` exactly when the search found it and it was delivered, or the server marked it on FETCH |
| Imap.CleanupLast | utils/imap_utils.py:69-74 | after a successful login the cycle selects first and always ends with close and logout |
| Imap.MarkedNotSearchedAgain | utils/imap_utils.py:44-64 | a marked message is not found by the next search |
| Imap.UndeliveredSearchedAgain | utils/imap_utils.py:44-68 | unless the server marks on FETCH, an undelivered message is found again by the next search |
| Imap.FailedRenderLostWithImplicitSeen | utils/imap_utils.py:55-68 | when the server marks on FETCH, a message whose rendering raises is never sent and never found again |
| Imap.SourceRendering | utils/imap_utils.py:59-61 | with the source's renderer a fetched message is rendered by `make_telegram_text` |
| Imap.UnparsedDateNeverSent | utils/imap_utils.py:61-63 | a message whose date does not parse is fetched and never sent |
| Imap.StaleSentEmpty | utils/imap_utils.py:61-63 | a message more than five days old is sent with no text |
| Imap.Session.constructor | utils/imap_utils.py:35 | a session starts on a mailbox without duplicate messages, with an empty call log |
| Imap.Session.HandleUid | utils/imap_utils.py:54-68 | the calls and flags of one message are those of `Handle` |
| Imap.Session.SendAndStore | utils/imap_utils.py:63-64 | sending and storing follow `Forward` |
| Imap.Session.ProcessUnseenAndForward | utils/imap_utils.py:29-74 | a whole cycle logs the calls of `Cycle` and adds its marks to the flags; on a mailbox without duplicates it fetches each unseen message once |
| Imap.Session.RunCycle | utils/imap_utils.py:35-74 | the calls and marks of a cycle are those of `Cycle` |
| Imap.Session.SelectAndForward | utils/imap_utils.py:42-68 | the `try` block logs the calls of `Scan` and adds its marks |
| Imap.Session.ForwardEach | utils/imap_utils.py:53-68 | the loop logs each message's calls in turn and adds their marks |
| Service.Forwarder.Valid | main.py:11-13 | a task exists exactly with its stop event, only once configured, every other task has finished, and a task that raised has finished; every endpoint keeps it |
| Service.Forwarder.Running | main.py:101 | `_worker_task is not None and not _worker_task.done()`; `GetStatus`, `Configure` and `StartWorker` state their replies and launches in terms of it |
| Service.Forwarder.constructor | main.py:11-13 | nothing configured, no task, no stop event |
| Service.Forwarder.Launch | main.py:57-58 | a fresh unset stop event and a new running task for the current configuration |
| Service.Forwarder.StartupEvent | main.py:20-29 | a worker is started only when a configuration exists and there is no task |
| Service.Forwarder.Configure | main.py:37-60 | the configuration is always replaced and the reply is always "ok"; a running worker keeps its old configuration, otherwise a new one starts with the new configuration |
| Service.Forwarder.StartWorker | main.py:63-74 | "error" exactly without a configuration, "Worker started." with a new task exactly when none runs, "Worker already running." with nothing changed otherwise |
| Service.Forwarder.StopWorker | main.py:83-96 | it raises exactly when the task has already ended with an exception, and then only the stop event is set, the task is kept; otherwise afterwards there is no task and no stop event, the stopped task has finished, and a stopped service is left unchanged |
| Service.Forwarder.StopWorkerEndpoint | main.py:77-80 | the same; the reply is "ok", "Worker stop requested." exactly when stopping does not raise, and there is none otherwise |
| Service.Forwarder.ShutdownEvent | main.py:32-34 | shutting down stops the worker, raising as `stop_worker` does |
| Service.Forwarder.WorkerRaises | utils/imap_utils.py:14-26 | a running worker ends on its own only with an exception, since the loop returns only after `stop_worker` sets its event; the service keeps the finished task, and no worker runs |
| Service.Forwarder.GetStatus | main.py:99-102 | `configured` exactly when a configuration is set, `worker_running` exactly when the task exists and has not finished, `config_file` set, to the file name, exactly when configured |

## Left out

- I/O is not modelled: the network, TLS and the IMAP and HTTP protocols are oracles. Each endpoint's reply and each cycle's calls are modelled; the bytes on the wire are not.
- `imap_worker_loop` (poll, sleep, repeat until the stop event) is not modelled. asyncio is not modelled either: the lock, `to_thread` and `wait_for` timeouts. The model has single cycles and the lifecycle's task states.
- Service.Forwarder.StopWorker: a task cancelled after the ten-second timeout is treated as finished. Its cycle may still be running in its thread when the service forgets it.
- Charset decoding of payloads (`errors="replace"`), `email.message_from_bytes`, `decode_header`, `datetime.strptime`, `str(datetime)` and the clock are oracles. Parts enter `Parsing.Body` already decoded.
- `html.unescape` is modelled for `&amp; &lt; &gt; &quot; &#x27; &#39; &apos; &nbsp;` only. The rest of HTML5's named and numeric references is not in the table.
- Imap.Cycle: an exception from `logout` and the output of logging are not modelled. A failing `close` is swallowed by the source and appears as the `Close` event.
- Parsing.MakeTelegramText: headers are text or absent. With the compat32 policy of `email.message_from_bytes`, a header holding raw 8-bit bytes (a UTF-8 display name that is not an encoded word) is returned as an `email.header.Header`; `html.escape` then raises on the Subject or From, and such a message is never forwarded. The model does not capture that failure, and `RenderedNameAddr` promises a text for any From of the form "name <addr>".
- Parsing.MakeTelegramText: the `decodeHeader` oracle never raises. `email.header.decode_header` raises `HeaderParseError` on a malformed base64 encoded word, and such a message is then never forwarded, as with an unknown charset.
- Imap.Handle: a STORE that raises leaves the flags unchanged in the model. The server might still have applied it.
- Imap.Uid: message sequence numbers are natural numbers supplied by the mailbox, not the byte tokens of the SEARCH reply.
- Imap.Cycle: the SEARCH result is derived from the mailbox and its flags. A server answering inconsistently is not modelled.
- Service.Forwarder.StopWorker: a worker still running when it is stopped is taken to end without an exception. An exception raised while the loop's HTTP client closes after the stop event is not modelled.
- The static UI routes (`/`, `/ui`) and the commented-out configuration persistence are not part of this model.
