/**
 * The message rendering of utils/parsing_utils.py: choosing the body text
 * of a message, the preview, the date gate and the layout of the text that
 * is sent to Telegram. A message is given as already-decoded parts; the
 * date parser and the header decoder are parameters.
 */
module Parsing {
  import opened Wrappers
  import opened PyStr
  import opened HtmlText

  // ---------------------------------------------------------------------
  // Messages
  // ---------------------------------------------------------------------

  /** One part as `msg.walk()` yields it, its payload already decoded to text. */
  datatype Part = Part(contentType: string, disposition: Option<string>, text: string)

  /**
   * The body of a message: the parts of a multipart message in walk order,
   * or the content type and decoded payload of a single-part one (an
   * absent or empty payload is the empty text).
   */
  datatype Body =
    | Multipart(parts: seq<Part>)
    | SinglePart(contentType: string, payload: string)

  /** The headers the renderer reads (`None` when absent) and the body. */
  datatype Message = Message(subject: Option<string>, from: Option<string>, date: Option<string>, body: Body)

  const PlainType := "text/plain"
  const HtmlType := "text/html"

  /** A part of type `ctype` whose Content-Disposition does not mention "attachment". */
  predicate Wanted(p: Part, ctype: string) {
    p.contentType == ctype && !Contains(p.disposition.GetOr(""), "attachment")
  }

  /** The texts of the wanted parts of type `ctype`, in walk order. */
  function Chunks(ps: seq<Part>, ctype: string): (r: seq<string>)
    ensures |r| <= |ps|
    ensures r == [] <==> forall i :: 0 <= i < |ps| ==> !Wanted(ps[i], ctype)
  {
    if ps == [] then []
    else
      var init, last := ps[..|ps| - 1], ps[|ps| - 1];
      assert forall i :: 0 <= i < |init| ==> init[i] == ps[i];
      Chunks(init, ctype) + (if Wanted(last, ctype) then [last.text] else [])
  }

  /** What `extract_text_from_email` returns for a message with this body. */
  function BodyText(b: Body): (r: string)
    ensures Trimmed(r)
  {
    match b
    case Multipart(ps) =>
      var plain, html := Chunks(ps, PlainType), Chunks(ps, HtmlType);
      if plain != [] then Strip(Join(plain, "\n"))
      else if html != [] then Strip(HtmlToText(Join(html, "\n")))
      else ""
    case SinglePart(ctype, payload) =>
      if payload == [] then ""
      else if ctype == HtmlType then Strip(HtmlToText(payload))
      else Strip(payload)
  }

  /** `extract_text_from_email`: the loop over the parts collects the plain and HTML texts. */
  method ExtractTextFromEmail(b: Body) returns (r: string)
    ensures r == BodyText(b)
  {
    match b
    case Multipart(ps) =>
      var plainChunks: seq<string> := [];
      var htmlChunks: seq<string> := [];
      for i := 0 to |ps|
        invariant plainChunks == Chunks(ps[..i], PlainType)
        invariant htmlChunks == Chunks(ps[..i], HtmlType)
      {
        var part := ps[i];
        var disp := part.disposition.GetOr("");
        assert ps[..i + 1][..i] == ps[..i];
        if part.contentType == PlainType && !Contains(disp, "attachment") {
          plainChunks := plainChunks + [part.text];
        } else if part.contentType == HtmlType && !Contains(disp, "attachment") {
          htmlChunks := htmlChunks + [part.text];
        }
      }
      assert ps[..|ps|] == ps;
      if plainChunks != [] {
        r := Strip(Join(plainChunks, "\n"));
      } else if htmlChunks != [] {
        r := Strip(HtmlToText(Join(htmlChunks, "\n")));
      } else {
        r := "";
      }
    case SinglePart(ctype, payload) =>
      if payload == [] {
        r := "";
      } else if ctype == PlainType {
        r := Strip(payload);
      } else if ctype == HtmlType {
        r := Strip(HtmlToText(payload));
      } else {
        r := Strip(payload);
      }
  }

  lemma {:induction false} ChunksAppend(a: seq<Part>, b: seq<Part>, ctype: string)
    ensures Chunks(a + b, ctype) == Chunks(a, ctype) + Chunks(b, ctype)
    decreases |b|
  {
    if b == [] {
      assert a + b == a;
    } else {
      var init, last := b[..|b| - 1], b[|b| - 1];
      var w := if Wanted(last, ctype) then [last.text] else [];
      assert (a + b)[..|a + b| - 1] == a + init;
      assert (a + b)[|a + b| - 1] == last;
      ChunksAppend(a, init, ctype);
      assert Chunks(a + b, ctype) == (Chunks(a, ctype) + Chunks(init, ctype)) + w;
      assert Chunks(b, ctype) == Chunks(init, ctype) + w;
      assert (Chunks(a, ctype) + Chunks(init, ctype)) + w == Chunks(a, ctype) + (Chunks(init, ctype) + w);
    }
  }

  /** A part that is not wanted for `ctype` is skipped when collecting `ctype` texts. */
  lemma SkipUnwanted(a: seq<Part>, p: Part, b: seq<Part>, ctype: string)
    requires !Wanted(p, ctype)
    ensures Chunks(a + [p] + b, ctype) == Chunks(a + b, ctype)
  {
    ChunksAppend(a + [p], b, ctype);
    ChunksAppend(a, [p], ctype);
    assert Chunks([p], ctype) == [] by {
      assert [p][..0] == [];
    }
    assert Chunks(a + [p], ctype) == Chunks(a, ctype);
    ChunksAppend(a, b, ctype);
  }

  /** A part marked as an attachment never contributes to the body text. */
  lemma AttachmentIgnored(a: seq<Part>, p: Part, b: seq<Part>)
    requires Contains(p.disposition.GetOr(""), "attachment")
    ensures BodyText(Multipart(a + [p] + b)) == BodyText(Multipart(a + b))
  {
    SkipUnwanted(a, p, b, PlainType);
    SkipUnwanted(a, p, b, HtmlType);
  }

  /** When a plain part is there, every part that is not plain (HTML included) is ignored. */
  lemma NonPlainIgnoredWhenPlain(a: seq<Part>, p: Part, b: seq<Part>, q: Part)
    requires q in a + b && Wanted(q, PlainType)
    requires p.contentType != PlainType
    ensures BodyText(Multipart(a + [p] + b)) == BodyText(Multipart(a + b))
  {
    SkipUnwanted(a, p, b, PlainType);
    var i :| 0 <= i < |a + b| && (a + b)[i] == q;
    assert Chunks(a + b, PlainType) != [];
  }

  /** Without a plain part, the HTML parts are joined and reduced as a single HTML body would be. */
  lemma HtmlFallback(ps: seq<Part>)
    requires forall i :: 0 <= i < |ps| ==> !Wanted(ps[i], PlainType)
    requires exists i :: 0 <= i < |ps| && Wanted(ps[i], HtmlType)
    requires Join(Chunks(ps, HtmlType), "\n") != []
    ensures BodyText(Multipart(ps)) == BodyText(SinglePart(HtmlType, Join(Chunks(ps, HtmlType), "\n")))
  {
  }

  /** With neither a plain nor an HTML part the body text is empty. */
  lemma NoTextParts(ps: seq<Part>)
    requires forall i :: 0 <= i < |ps| ==> !Wanted(ps[i], PlainType) && !Wanted(ps[i], HtmlType)
    ensures BodyText(Multipart(ps)) == ""
  {
  }

  /** A single part that is not HTML is returned verbatim, markup and all, up to surrounding whitespace. */
  lemma SinglePartVerbatim(ctype: string, payload: string)
    requires ctype != HtmlType && Trimmed(payload)
    ensures BodyText(SinglePart(ctype, payload)) == payload
  {
  }

  /** An HTML single part without '<' and '&' reads the same as a plain one. */
  lemma SinglePartHtmlWithoutMarkup(payload: string, ctype: string)
    requires '<' !in payload && '&' !in payload
    ensures BodyText(SinglePart(HtmlType, payload)) == BodyText(SinglePart(ctype, payload))
  {
    HtmlToTextPlain(payload);
  }

  // ---------------------------------------------------------------------
  // Preview
  // ---------------------------------------------------------------------

  const PreviewLines := 10
  const PreviewChars := 600
  const NoTextBody := "(no text body)"

  /** The preview of `make_telegram_text`: the first 10 lines, cut at 600 characters plus "…". */
  function Preview(body: string): (p: string)
    ensures |p| <= PreviewChars + 1
    ensures AllSpace(body) ==> p == NoTextBody
  {
    var lines := SplitLines(Strip(body));
    if lines == [] then NoTextBody
    else
      var joined := Join(Take(lines, PreviewLines), "\n");
      if |joined| > PreviewChars then joined[..PreviewChars] + "…" else joined
  }

  /** A long joined preview becomes exactly its first 600 characters and the ellipsis. */
  lemma PreviewCut(body: string)
    requires !AllSpace(body)
    requires |Join(Take(SplitLines(Strip(body)), PreviewLines), "\n")| > PreviewChars
    ensures |Preview(body)| == PreviewChars + 1
    ensures Preview(body) == Join(Take(SplitLines(Strip(body)), PreviewLines), "\n")[..PreviewChars] + "…"
  {
  }

  /**
   * A trimmed body of at most 10 lines and 600 characters, broken only by
   * "\n", is shown whole.
   */
  lemma PreviewWhole(body: string)
    requires body != [] && Trimmed(body) && |body| <= PreviewChars
    requires forall i :: 0 <= i < |body| && IsLineBreak(body[i]) ==> body[i] == '\n'
    requires |SplitLines(body)| <= PreviewLines
    ensures Preview(body) == body
  {
    var lines := SplitLines(Strip(body));
    assert Strip(body) == body;
    assert lines != [] && Take(lines, PreviewLines) == lines;
    assert Join(lines, "\n") == body by {
      JoinSplitLines(body);
    }
  }

  // ---------------------------------------------------------------------
  // Dates
  // ---------------------------------------------------------------------

  /** A parsed date: the instant in microseconds since the epoch (UTC) and how `str` prints it. */
  datatype DateTime = DateTime(instant: int, text: string)

  /** `timedelta(days=5)` in microseconds. */
  const FiveDays := 5 * 24 * 60 * 60 * 1000000

  /** What `parse_email_date` hands to `strptime`: the text before the first '(' without surrounding whitespace. */
  function DateCore(s: string): (r: string)
    ensures '(' !in r && Trimmed(r)
  {
    var before := BeforeFirst(s, '(');
    var r := Strip(before);
    assert forall i :: 0 <= i < |r| ==> r[i] in before by {
      var l := LStrip(before);
      forall i | 0 <= i < |r| ensures r[i] in before {
        assert r[i] == l[i] == before[|before| - |l| + i];
      }
    }
    r
  }

  /**
   * `parse_email_date`; `strptime` stands for `datetime.strptime` with the
   * format "%a, %d %b %Y %H:%M:%S %z", and `None` for the ValueError it raises.
   */
  function ParseEmailDate(s: string, strptime: string -> Option<DateTime>): Option<DateTime> {
    strptime(DateCore(s))
  }

  lemma BeforeFirstAt(x: string, y: string, c: char)
    requires c !in x
    ensures BeforeFirst(x + [c] + y, c) == x
  {
    var s := x + [c] + y;
    var r := BeforeFirst(s, c);
    assert forall i :: 0 <= i < |x| ==> s[i] == x[i] && s[i] != c;
    assert s[|x|] == c;
    assert forall i :: 0 <= i < |r| ==> r[i] == s[i];
  }

  /** A trailing comment such as " (UTC)" does not change the parsed date. */
  lemma DateCommentIgnored(d: string, w: string, comment: string, strptime: string -> Option<DateTime>)
    requires '(' !in d && AllSpace(w)
    ensures ParseEmailDate(d + w + "(" + comment, strptime) == ParseEmailDate(d, strptime)
  {
    assert '(' !in d + w;
    assert d + w + "(" + comment == (d + w) + ['('] + comment;
    BeforeFirstAt(d + w, comment, '(');
    BeforeFirstAt(d, [], '(');
    assert d + ['('] + [] == d + ['('];
    StripTrailingSpaces(d, w);
    BeforeFirstWithout(d, '(');
  }

  lemma BeforeFirstWithout(s: string, c: char)
    requires c !in s
    ensures BeforeFirst(s, c) == s
  {
    assert forall i :: 0 <= i < |s| ==> s[i] != c;
  }

  /** The gate of `make_telegram_text`: more than five days before `now`. */
  predicate IsStale(now: int, d: DateTime) {
    now - d.instant > FiveDays
  }

  // ---------------------------------------------------------------------
  // Subject
  // ---------------------------------------------------------------------

  /**
   * One item of `decode_header`'s result: a string, or bytes given by the
   * text their charset decodes them to (`None` when the charset is unknown
   * and `bytes.decode` raises).
   */
  datatype HeaderChunk = Plain(s: string) | Encoded(decoded: Option<string>)

  /** What `decode_subj` returns for these chunks, `None` where it raises. */
  function SubjectText(chunks: seq<HeaderChunk>): (r: Option<string>)
    ensures r.None? <==> exists i :: 0 <= i < |chunks| && chunks[i] == Encoded(None)
  {
    if chunks == [] then Some("")
    else
      var init, last := chunks[..|chunks| - 1], chunks[|chunks| - 1];
      assert forall i :: 0 <= i < |init| ==> init[i] == chunks[i];
      var prefix := SubjectText(init);
      match last
      case Plain(s) => (if prefix.Some? then Some(prefix.value + s) else None)
      case Encoded(d) => (if prefix.Some? && d.Some? then Some(prefix.value + d.value) else None)
  }

  function ChunkText(c: HeaderChunk): string {
    match c
    case Plain(s) => s
    case Encoded(d) => d.GetOr("")
  }

  /** `decode_subj`: concatenates the decoded chunks in order. */
  method DecodeSubj(chunks: seq<HeaderChunk>) returns (r: Option<string>)
    ensures r == SubjectText(chunks)
  {
    var decoded := "";
    for i := 0 to |chunks|
      invariant SubjectText(chunks[..i]) == Some(decoded)
    {
      assert chunks[..i + 1][..i] == chunks[..i];
      match chunks[i]
      case Plain(s) =>
        decoded := decoded + s;
      case Encoded(d) =>
        if d.None? {
          SubjectTextFails(chunks, i);
          return None;
        }
        decoded := decoded + d.value;
    }
    assert chunks[..|chunks|] == chunks;
    r := Some(decoded);
  }

  lemma SubjectTextFails(chunks: seq<HeaderChunk>, i: nat)
    requires i < |chunks| && chunks[i] == Encoded(None)
    ensures SubjectText(chunks) == None
  {
  }

  /** The decoded subject is the decoded chunks one after another. */
  lemma {:induction false} SubjectTextAppend(a: seq<HeaderChunk>, b: seq<HeaderChunk>)
    requires SubjectText(a).Some? && SubjectText(b).Some?
    ensures SubjectText(a + b) == Some(SubjectText(a).value + SubjectText(b).value)
    decreases |b|
  {
    if b == [] {
      assert a + b == a;
      assert SubjectText(b) == Some("");
      assert SubjectText(a + b) == SubjectText(a);
      assert SubjectText(a).value + "" == SubjectText(a).value;
    } else {
      var init := b[..|b| - 1];
      assert (a + b)[..|a + b| - 1] == a + init;
      assert (a + b)[|a + b| - 1] == b[|b| - 1];
      var last := b[|b| - 1];
      assert SubjectText(init).Some? && last != Encoded(None);
      assert SubjectText(b) == Some(SubjectText(init).value + ChunkText(last));
      SubjectTextAppend(a, init);
      assert SubjectText(a + b) == Some(SubjectText(a + init).value + ChunkText(last));
      var x, y := SubjectText(a).value, SubjectText(init).value;
      assert (x + y) + ChunkText(last) == x + (y + ChunkText(last));
    }
  }

  // ---------------------------------------------------------------------
  // Sender
  // ---------------------------------------------------------------------

  /**
   * Where the greedy `(.*)&gt;` ends its group in `t`: the last "&gt;" that
   * starts before the first line break (`.` does not match "\n").
   */
  function LastGt(t: string): (k: Option<nat>)
    ensures k.Some? ==> k.value + 4 <= |t| && StartsWith(t[k.value..], "&gt;") && '\n' !in t[..k.value]
    decreases |t|
  {
    if t == [] || t[0] == '\n' then None
    else
      match LastGt(t[1..])
      case Some(k) =>
        assert t[k + 1..] == t[1..][k..] && t[..k + 1] == [t[0]] + t[1..][..k];
        Some(k + 1)
      case None => if StartsWith(t, "&gt;") then Some(0) else None
  }

  /** No "&gt;" starts on the first line after the one `LastGt` finds, and none at all when it finds none. */
  lemma {:induction false} LastGtIsLast(t: string)
    ensures LastGt(t).Some? ==> forall j :: LastGt(t).value < j <= |t| && '\n' !in t[..j] ==> !StartsWith(t[j..], "&gt;")
    ensures LastGt(t).None? ==> forall j :: 0 <= j <= |t| && '\n' !in t[..j] ==> !StartsWith(t[j..], "&gt;")
    decreases |t|
  {
    if t == [] {
    } else if t[0] == '\n' {
      forall j | 0 < j <= |t| ensures '\n' in t[..j] {
        assert t[..j][0] == t[0];
      }
    } else {
      LastGtIsLast(t[1..]);
      forall j | 0 < j <= |t| && '\n' !in t[..j]
        ensures StartsWith(t[j..], "&gt;") == StartsWith(t[1..][j - 1..], "&gt;")
        ensures '\n' !in t[1..][..j - 1]
      {
        assert t[j..] == t[1..][j - 1..];
        assert t[..j] == [t[0]] + t[1..][..j - 1];
      }
    }
  }

  /**
   * `re.search(r"&lt;(.*)&gt;", t).group(1)`: from the first "&lt;" after
   * which a "&gt;" follows on the same line, up to the last such "&gt;";
   * `None` where the search finds nothing and `.group` raises.
   */
  function SenderAddress(t: string): (r: Option<string>)
    decreases |t|
  {
    if StartsWith(t, "&lt;") && LastGt(t[4..]).Some? then Some(t[4..][..LastGt(t[4..]).value])
    else if t == [] then None
    else SenderAddress(t[1..])
  }

  /** `&lt;(.*)&gt;` matches at `i`: a "&lt;" there, and a "&gt;" after it on the same line. */
  predicate RefMatchAt(t: string, i: nat) {
    i + 4 <= |t| && StartsWith(t[i..], "&lt;") && LastGt(t[i + 4..]).Some?
  }

  /**
   * The search fails exactly when no position matches; otherwise its group
   * is the one of the leftmost match, up to that line's last "&gt;".
   */
  lemma {:induction false} SenderAddressFirst(t: string)
    ensures SenderAddress(t).None? <==> forall i :: 0 <= i <= |t| ==> !RefMatchAt(t, i)
    ensures SenderAddress(t).Some? ==>
      exists i :: 0 <= i <= |t| && RefMatchAt(t, i) && (forall j :: 0 <= j < i ==> !RefMatchAt(t, j))
        && SenderAddress(t).value == t[i + 4..][..LastGt(t[i + 4..]).value]
    decreases |t|
  {
    assert t[0..] == t;
    if !RefMatchAt(t, 0) && t != [] {
      var u := t[1..];
      SenderAddressFirst(u);
      forall j | 0 <= j <= |u| ensures RefMatchAt(t, j + 1) <==> RefMatchAt(u, j) {
        assert t[j + 1..] == u[j..];
        if j + 4 <= |u| {
          assert t[j + 1 + 4..] == u[j + 4..];
        }
      }
      if SenderAddress(t).Some? {
        var i :| 0 <= i <= |u| && RefMatchAt(u, i) && (forall j :: 0 <= j < i ==> !RefMatchAt(u, j))
          && SenderAddress(u).value == u[i + 4..][..LastGt(u[i + 4..]).value];
        assert t[i + 1 + 4..] == u[i + 4..];
        assert forall j :: 0 <= j < i + 1 ==> !RefMatchAt(t, j) by {
          forall j | 0 < j < i + 1 ensures !RefMatchAt(t, j) {
            assert !RefMatchAt(u, j - 1);
          }
        }
        assert RefMatchAt(t, i + 1);
      } else {
        forall i | 0 < i <= |t| ensures !RefMatchAt(t, i) {
          assert !RefMatchAt(u, i - 1);
        }
      }
    }
  }

  /** The search passes over positions where no "&lt;" starts. */
  lemma {:induction false} SenderSkip(t: string, n: nat)
    requires n <= |t|
    requires forall i :: 0 <= i < n ==> !StartsWith(t[i..], "&lt;")
    ensures SenderAddress(t) == SenderAddress(t[n..])
    decreases n
  {
    if n > 0 {
      assert !StartsWith(t[0..], "&lt;");
      assert t[0..] == t;
      forall i | 0 <= i < n - 1 ensures !StartsWith(t[1..][i..], "&lt;") {
        assert t[1..][i..] == t[i + 1..];
      }
      SenderSkip(t[1..], n - 1);
      assert t[1..][n - 1..] == t[n..];
    }
  }

  /** A sender without '<', such as the default "(unknown sender)", has no address. */
  lemma NoAngleNoAddress(frm: string)
    requires '<' !in frm
    ensures SenderAddress(EscapeHtml(frm)) == None
  {
    var t := EscapeHtml(frm);
    EscapeHtmlNoLtRef(frm);
    SenderSkip(t, |t|);
    assert t[|t|..] == [];
  }

  /** Escaping "name <addr>" escapes the pieces and turns the brackets into references. */
  lemma EscapeNameAddr(name: string, addr: string)
    ensures EscapeHtml(name + "<" + addr + ">") == EscapeHtml(name) + "&lt;" + EscapeHtml(addr) + "&gt;"
  {
    EscapeHtmlAppend(name + "<" + addr, ">");
    EscapeHtmlAppend(name + "<", addr);
    EscapeHtmlAppend(name, "<");
    EscapeHtmlChar('<');
    EscapeHtmlChar('>');
  }

  /** No "&lt;" starts inside a prefix whose every '&' is followed by something other than 'l'. */
  lemma NoLtRefInPrefix(p: string, rest: string)
    requires AmpNotBeforeL(p)
    ensures forall i :: 0 <= i < |p| ==> !StartsWith((p + rest)[i..], "&lt;")
  {
    var t := p + rest;
    forall i | 0 <= i < |p| ensures !StartsWith(t[i..], "&lt;") {
      if i + 1 < |t| {
        assert t[i..][0] == t[i] == p[i];
        assert t[i..][1] == t[i + 1];
        if p[i] == '&' {
          assert t[i + 1] == p[i + 1];
        }
      }
    }
  }

  /** Greedy matching ends at a final "&gt;" when no line break comes before it. */
  lemma LastGtAtEnd(e: string)
    requires '\n' !in e
    ensures LastGt(e + "&gt;") == Some(|e|)
  {
    var v := e + "&gt;";
    assert v[..|e|] == e && v[|e|..] == "&gt;";
    LastGtIsLast(v);
    assert StartsWith(v[|e|..], "&gt;") && '\n' !in v[..|e|];
  }

  /** The search finds the group between the first "&lt;" and a final "&gt;". */
  lemma SenderBetweenRefs(p: string, e: string)
    requires AmpNotBeforeL(p) && '\n' !in e
    ensures SenderAddress(p + "&lt;" + e + "&gt;") == Some(e)
  {
    var rest := "&lt;" + e + "&gt;";
    assert p + "&lt;" + e + "&gt;" == p + rest;
    NoLtRefInPrefix(p, rest);
    SenderSkip(p + rest, |p|);
    assert (p + rest)[|p|..] == rest;
    SenderAtRef(e);
  }

  /** A text that starts with "&lt;" and ends the line with "&gt;" names what lies between. */
  lemma SenderAtRef(e: string)
    requires '\n' !in e
    ensures SenderAddress("&lt;" + e + "&gt;") == Some(e)
  {
    var rest := "&lt;" + e + "&gt;";
    assert StartsWith(rest, "&lt;");
    assert rest[4..] == e + "&gt;";
    LastGtAtEnd(e);
    assert (e + "&gt;")[..|e|] == e;
  }

  /** "Name <addr>" shows the escaped addr. */
  lemma NameAddrSender(name: string, addr: string)
    requires '<' !in name && '<' !in addr && '>' !in addr && '\n' !in addr
    ensures SenderAddress(EscapeHtml(name + "<" + addr + ">")) == Some(EscapeHtml(addr))
  {
    EscapeNameAddr(name, addr);
    EscapeHtmlNoLtRef(name);
    EscapeHtmlKeepsAbsent(addr, '\n');
    SenderBetweenRefs(EscapeHtml(name), EscapeHtml(addr));
  }

  // ---------------------------------------------------------------------
  // The Telegram text
  // ---------------------------------------------------------------------

  const NoSubject := "(no subject)"
  const UnknownSender := "(unknown sender)"

  /** Why `make_telegram_text` raises: no parsed date, an unknown charset, no address. */
  datatype Failure = DateUnparsed | SubjectCharset | NoSenderAddress

  /** What `make_telegram_text` does: returns None for a stale message, returns a text, or raises. */
  datatype Rendered = Stale | Telegram(text: string) | Failed(reason: Failure)

  /** The five lines of the sent text. */
  function Layout(subject: string, sender: string, date: string, preview: string): string {
    "<b>" + subject + "</b>\nFrom: " + sender + "\nDate: " + date + "\n\n" + EscapeHtml(preview)
  }

  /**
   * `make_telegram_text` at time `now`; `strptime` and `decodeHeader` stand
   * for `datetime.strptime` and `email.header.decode_header`.
   */
  function MakeTelegramText(m: Message, now: int, strptime: string -> Option<DateTime>,
                            decodeHeader: string -> seq<HeaderChunk>): (r: Rendered)
    ensures r == Failed(DateUnparsed) <==> MessageDate(m, strptime).None?
    ensures r == Stale <==> MessageDate(m, strptime).Some? && IsStale(now, MessageDate(m, strptime).value)
  {
    var parsed := MessageDate(m, strptime);
    if parsed.None? then Failed(DateUnparsed)
    else if IsStale(now, parsed.value) then Stale
    else
      var subject := MessageSubject(m, decodeHeader);
      if subject.None? then Failed(SubjectCharset)
      else
        var sender := MessageSender(m);
        if sender.None? then Failed(NoSenderAddress)
        else Telegram(Layout(subject.value, sender.value, parsed.value.text, MessagePreview(m)))
  }

  /** The date `make_telegram_text` reads: the escaped Date header (empty when absent), parsed. */
  function MessageDate(m: Message, strptime: string -> Option<DateTime>): Option<DateTime> {
    ParseEmailDate(EscapeHtml(m.date.GetOr("")), strptime)
  }

  /** The subject line: the escaped Subject header, decoded. */
  function MessageSubject(m: Message, decodeHeader: string -> seq<HeaderChunk>): Option<string> {
    SubjectText(decodeHeader(EscapeHtml(m.subject.GetOr(NoSubject))))
  }

  /** The From line: the address found in the escaped From header. */
  function MessageSender(m: Message): Option<string> {
    SenderAddress(EscapeHtml(m.from.GetOr(UnknownSender)))
  }

  /** The preview of the extracted body. */
  function MessagePreview(m: Message): string {
    Preview(BodyText(m.body))
  }

  /** A rendered text lays out the decoded subject, the sender's address, the parsed date and the preview. */
  lemma RenderedLayout(m: Message, now: int, strptime: string -> Option<DateTime>,
                       decodeHeader: string -> seq<HeaderChunk>)
    requires MakeTelegramText(m, now, strptime, decodeHeader).Telegram?
    ensures MessageDate(m, strptime).Some? && !IsStale(now, MessageDate(m, strptime).value)
    ensures MessageSubject(m, decodeHeader).Some? && MessageSender(m).Some?
    ensures MakeTelegramText(m, now, strptime, decodeHeader).text
         == Layout(MessageSubject(m, decodeHeader).value, MessageSender(m).value,
                   MessageDate(m, strptime).value.text, MessagePreview(m))
  {
  }

  /** The escaped preview closes the text. */
  lemma LayoutPreview(subject: string, sender: string, date: string, preview: string)
    ensures var text, e := Layout(subject, sender, date, preview), EscapeHtml(preview);
      |e| <= |text| && text[|text| - |e|..] == e
  {
    var head := "<b>" + subject + "</b>\nFrom: " + sender + "\nDate: " + date + "\n\n";
    assert Layout(subject, sender, date, preview) == head + EscapeHtml(preview);
  }

  /** The preview closes the text, escaped, and unescaping it gives the preview back. */
  lemma RenderedPreview(m: Message, now: int, strptime: string -> Option<DateTime>,
                        decodeHeader: string -> seq<HeaderChunk>)
    requires MakeTelegramText(m, now, strptime, decodeHeader).Telegram?
    ensures var text, e := MakeTelegramText(m, now, strptime, decodeHeader).text, EscapeHtml(MessagePreview(m));
      |e| <= |text| && text[|text| - |e|..] == e && NoMarkup(e) && Unescape(e) == MessagePreview(m)
  {
    RenderedLayout(m, now, strptime, decodeHeader);
    var p := MessagePreview(m);
    EscapeHtmlNoMarkup(p);
    UnescapeEscapeHtml(p);
    LayoutPreview(MessageSubject(m, decodeHeader).value, MessageSender(m).value, MessageDate(m, strptime).value.text, p);
  }

  /** A fresh message from "Name <addr>" shows the escaped addr on its From line. */
  lemma RenderedNameAddr(m: Message, now: int, strptime: string -> Option<DateTime>,
                         decodeHeader: string -> seq<HeaderChunk>, name: string, addr: string)
    requires m.from == Some(name + "<" + addr + ">")
    requires '<' !in name && '<' !in addr && '>' !in addr && '\n' !in addr
    requires MessageDate(m, strptime).Some? && !IsStale(now, MessageDate(m, strptime).value)
    requires MessageSubject(m, decodeHeader).Some?
    ensures MakeTelegramText(m, now, strptime, decodeHeader)
         == Telegram(Layout(MessageSubject(m, decodeHeader).value, EscapeHtml(addr),
                            MessageDate(m, strptime).value.text, MessagePreview(m)))
  {
    NameAddrSender(name, addr);
  }

  /** A fresh message whose sender has no '<' (or no From header at all) makes the renderer raise. */
  lemma RenderedWithoutAddress(m: Message, now: int, strptime: string -> Option<DateTime>,
                               decodeHeader: string -> seq<HeaderChunk>)
    requires '<' !in m.from.GetOr(UnknownSender)
    requires MessageDate(m, strptime).Some? && !IsStale(now, MessageDate(m, strptime).value)
    requires MessageSubject(m, decodeHeader).Some?
    ensures MakeTelegramText(m, now, strptime, decodeHeader) == Failed(NoSenderAddress)
  {
    NoAngleNoAddress(m.from.GetOr(UnknownSender));
  }

  /** The subject sits right after the opening "<b>" of the text. */
  lemma LayoutSubject(subject: string, sender: string, date: string, preview: string)
    ensures 3 + |subject| <= |Layout(subject, sender, date, preview)|
    ensures Layout(subject, sender, date, preview)[3..3 + |subject|] == subject
  {
    var rest := "</b>\nFrom: " + sender + "\nDate: " + date + "\n\n" + EscapeHtml(preview);
    assert Layout(subject, sender, date, preview) == "<b>" + subject + rest;
  }

  /** A subject that is one encoded word decodes to that word's text. */
  lemma SubjectOneEncoded(d: string)
    ensures SubjectText([Encoded(Some(d))]) == Some(d)
  {
    var chunks := [Encoded(Some(d))];
    assert chunks[..0] == [];
    assert SubjectText(chunks) == Some("" + d);
    assert "" + d == d;
  }

  /**
   * The subject is escaped before `decode_header` runs, so what an encoded
   * word decodes to, '<' included, reaches the text unescaped.
   */
  lemma EncodedSubjectUnescaped(m: Message, now: int, strptime: string -> Option<DateTime>,
                                decodeHeader: string -> seq<HeaderChunk>, d: string)
    requires decodeHeader(EscapeHtml(m.subject.GetOr(NoSubject))) == [Encoded(Some(d))]
    requires MakeTelegramText(m, now, strptime, decodeHeader).Telegram?
    ensures var text := MakeTelegramText(m, now, strptime, decodeHeader).text;
      3 + |d| <= |text| && text[3..3 + |d|] == d
  {
    RenderedLayout(m, now, strptime, decodeHeader);
    SubjectOneEncoded(d);
    LayoutSubject(d, MessageSender(m).value, MessageDate(m, strptime).value.text, MessagePreview(m));
  }

  /** Escaping a date with a comment escapes the date and the comment and keeps the rest. */
  lemma EscapeDateComment(d: string, w: string, comment: string)
    requires '(' !in d && AllSpace(w)
    ensures EscapeHtml(d + w + "(" + comment) == EscapeHtml(d) + w + "(" + EscapeHtml(comment)
    ensures '(' !in EscapeHtml(d)
  {
    assert '&' !in w && NoMarkup(w);
    EscapeHtmlPlain(w);
    EscapeHtmlChar('(');
    EscapeHtmlAppend(d + w + "(", comment);
    EscapeHtmlAppend(d + w, "(");
    EscapeHtmlAppend(d, w);
    EscapeHtmlKeepsAbsent(d, '(');
  }

  /** A comment after the date, as in "... +0000 (UTC)", does not change the outcome. */
  lemma RenderIgnoresDateComment(m: Message, now: int, strptime: string -> Option<DateTime>,
                                 decodeHeader: string -> seq<HeaderChunk>, d: string, w: string, comment: string)
    requires m.date == Some(d + w + "(" + comment)
    requires '(' !in d && AllSpace(w)
    ensures MakeTelegramText(m, now, strptime, decodeHeader)
         == MakeTelegramText(m.(date := Some(d)), now, strptime, decodeHeader)
  {
    var m' := m.(date := Some(d));
    assert MessageDate(m, strptime) == MessageDate(m', strptime) by {
      EscapeDateComment(d, w, comment);
      DateCommentIgnored(EscapeHtml(d), w, EscapeHtml(comment), strptime);
    }
    assert MessageSubject(m, decodeHeader) == MessageSubject(m', decodeHeader);
    assert MessageSender(m) == MessageSender(m');
    assert MessagePreview(m) == MessagePreview(m');
  }
}
