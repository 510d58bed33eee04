/**
 * `html_to_text` and `escape_html` of utils/parsing_utils.py. Each
 * `re.sub` of `html_to_text` is written out as an explicit left-to-right
 * scanner (`Sub`) over the one pattern it uses; `html.escape` is the
 * source's chain of replacements, and `Unescape` decodes the character
 * references `html.escape` produces (and a few more).
 */
module HtmlText {
  import opened Wrappers
  import opened PyStr

  // ---------------------------------------------------------------------
  // Matching helpers
  // ---------------------------------------------------------------------

  /** ASCII lower-casing; every pattern letter below is ASCII. */
  function Lower(c: char): char {
    if 'A' <= c <= 'Z' then (c as int + 32) as char else c
  }

  /**
   * `c` matches the lower-case pattern character `p` under `re.IGNORECASE`;
   * Python's regex engine also lets U+017F (long s) match `s`.
   */
  predicate MatchesCI(c: char, p: char) {
    Lower(c) == p || (p == 's' && c == '\U{17F}')
  }

  predicate StartsWithCI(s: string, p: string) {
    |p| <= |s| && forall i :: 0 <= i < |p| ==> MatchesCI(s[i], p[i])
  }

  /** The first index at or after `from` where `p` matches, ignoring case. */
  function FindCI(s: string, p: string, from: nat): (r: Option<nat>)
    requires from <= |s|
    ensures r.Some? ==> from <= r.value && r.value + |p| <= |s| && StartsWithCI(s[r.value..], p)
    ensures r.Some? ==> forall k :: from <= k < r.value ==> !StartsWithCI(s[k..], p)
    ensures r.None? ==> forall k :: from <= k <= |s| ==> !StartsWithCI(s[k..], p)
    decreases |s| - from
  {
    if StartsWithCI(s[from..], p) then Some(from)
    else if from == |s| then None
    else FindCI(s, p, from + 1)
  }

  /** The first index at or after `from` holding `c`. */
  function IndexOf(s: string, c: char, from: nat): (r: Option<nat>)
    requires from <= |s|
    ensures r.Some? ==> from <= r.value < |s| && s[r.value] == c && c !in s[from..r.value]
    ensures r.None? ==> c !in s[from..]
    decreases |s| - from
  {
    if from == |s| then None
    else if s[from] == c then Some(from)
    else
      var r := IndexOf(s, c, from + 1);
      assert r.Some? ==> s[from..r.value] == [s[from]] + s[from + 1..r.value];
      assert s[from..] == [s[from]] + s[from + 1..];
      r
  }

  /** The first index at or after `from` that is not whitespace (`\s*`). */
  function SkipSpaces(s: string, from: nat): (p: nat)
    requires from <= |s|
    ensures from <= p <= |s| && (p < |s| ==> !IsSpace(s[p]))
    ensures AllSpace(s[from..p])
    decreases |s| - from
  {
    if from < |s| && IsSpace(s[from]) then
      var p := SkipSpaces(s, from + 1);
      assert s[from..p] == [s[from]] + s[from + 1..p];
      p
    else from
  }

  // ---------------------------------------------------------------------
  // The patterns of html_to_text and re.sub over them
  // ---------------------------------------------------------------------

  datatype Pattern =
    | Block(tag: string)  // <tag.*?>.*?</tag> with re.S | re.I
    | LineBreak           // (?i)<br\s*/?>
    | ParagraphEnd        // (?i)</p>
    | AnyTag              // <[^>]+>

  /** The end of the match of `pat` that starts at `s[0]`, if there is one. */
  function MatchEnd(s: string, pat: Pattern): (e: Option<nat>)
    ensures e.Some? ==> 0 < e.value <= |s| && s[0] == '<'
  {
    match pat
    case Block(tag) => BlockEnd(s, tag)
    case LineBreak => LineBreakEnd(s)
    case ParagraphEnd => ParagraphCloseEnd(s)
    case AnyTag => TagEnd(s)
  }

  /** `<tag.*?>.*?</tag>`: the lazy `.*?>` stops at the first '>', the lazy `.*?` at the first closing tag. */
  function BlockEnd(s: string, tag: string): (e: Option<nat>)
    ensures e.Some? ==> 0 < e.value <= |s| && s[0] == '<'
  {
    if !StartsWithCI(s, "<" + tag) then None
    else
      assert MatchesCI(s[0], ("<" + tag)[0]);
      match IndexOf(s, '>', |tag| + 1)
      case None => None
      case Some(j) =>
        match FindCI(s, "</" + tag + ">", j + 1)
        case None => None
        case Some(k) => Some(k + |tag| + 3)
  }

  // `<br\s*/?>`: "<br", whitespace as far as it goes, then ">" or "/>".
  function LineBreakEnd(s: string): (e: Option<nat>)
    ensures e.Some? ==> 0 < e.value <= |s| && s[0] == '<'
  {
    if !StartsWithCI(s, "<br") then None
    else
      assert MatchesCI(s[0], '<');
      var p := SkipSpaces(s, 3);
      if p < |s| && s[p] == '>' then Some(p + 1)
      else if p + 1 < |s| && s[p] == '/' && s[p + 1] == '>' then Some(p + 2)
      else None
  }

  /** `</p>`. */
  function ParagraphCloseEnd(s: string): (e: Option<nat>)
    ensures e.Some? ==> 0 < e.value <= |s| && s[0] == '<'
  {
    if StartsWithCI(s, "</p>") then
      assert MatchesCI(s[0], '<');
      Some(4)
    else None
  }

  /** `<[^>]+>`: a '<', at least one character other than '>', and the first '>' after them. */
  function TagEnd(s: string): (e: Option<nat>)
    ensures e.Some? ==> 0 < e.value <= |s| && s[0] == '<'
  {
    if 2 <= |s| && s[0] == '<' && s[1] != '>' then
      match IndexOf(s, '>', 2)
      case None => None
      case Some(j) => Some(j + 1)
    else None
  }

  /** `re.sub(pat, repl, s)`: every leftmost non-overlapping match replaced. */
  function Sub(s: string, pat: Pattern, repl: string): string
    decreases |s|
  {
    if s == [] then []
    else
      match MatchEnd(s, pat)
      case Some(e) => repl + Sub(s[e..], pat, repl)
      case None => [s[0]] + Sub(s[1..], pat, repl)
  }

  /** The tag-stripping step, `re.sub(r"<[^>]+>", "", text)`. */
  function StripTags(s: string): string {
    Sub(s, AnyTag, "")
  }

  /** `html.unescape`, restricted to the references of `EntityAt`. */
  function Unescape(s: string): string
    decreases |s|
  {
    if s == [] then []
    else
      match EntityAt(s)
      case Some(ref) => [ref.1] + Unescape(s[ref.0..])
      case None => [s[0]] + Unescape(s[1..])
  }

  /** The character reference at the start of `s`: its length and its character. */
  function EntityAt(s: string): (r: Option<(nat, char)>)
    ensures r.Some? ==> 0 < r.value.0 <= |s| && s[0] == '&'
  {
    if StartsWith(s, "&amp;") then Some((5, '&'))
    else if StartsWith(s, "&lt;") then Some((4, '<'))
    else if StartsWith(s, "&gt;") then Some((4, '>'))
    else if StartsWith(s, "&quot;") then Some((6, '"'))
    else if StartsWith(s, "&#x27;") then Some((6, '\''))
    else if StartsWith(s, "&#39;") then Some((5, '\''))
    else if StartsWith(s, "&apos;") then Some((6, '\''))
    else if StartsWith(s, "&nbsp;") then Some((6, '\U{A0}'))
    else None
  }

  /** `html_to_text`: drop head and style blocks, turn breaks into newlines, strip tags, decode references. */
  function HtmlToText(html: string): string {
    var noHead := Sub(html, Block("head"), "");
    var noStyle := Sub(noHead, Block("style"), "");
    var brs := Sub(noStyle, LineBreak, "\n");
    var paragraphs := Sub(brs, ParagraphEnd, "\n");
    Unescape(StripTags(paragraphs))
  }

  // ---------------------------------------------------------------------
  // Properties of html_to_text
  // ---------------------------------------------------------------------

  /** What `<[^>]+>` could still match: a '<', one or more non-'>' characters, a '>'. */
  predicate NoTagMatch(t: string) {
    forall i, j :: 0 <= i && i + 1 < j < |t| && t[i] == '<' && t[j] == '>' ==> '>' in t[i + 1..j]
  }

  /** Stripping only removes characters. */
  lemma {:induction false} StripTagsChars(s: string, c: char)
    ensures c in StripTags(s) ==> c in s
    decreases |s|
  {
    if s != [] {
      match MatchEnd(s, AnyTag)
      case Some(e) =>
        StripTagsChars(s[e..], c);
        assert c in s[e..] ==> c in s;
      case None =>
        StripTagsChars(s[1..], c);
        assert StripTags(s) == [s[0]] + StripTags(s[1..]);
        assert c in s[1..] ==> c in s;
    }
  }

  /** After the tag-strip step no `<[^>]+>` match is left. */
  lemma {:induction false} StripTagsLeavesNoTag(s: string)
    ensures NoTagMatch(StripTags(s))
    decreases |s|
  {
    if s != [] {
      match MatchEnd(s, AnyTag)
      case Some(e) =>
        assert StripTags(s) == "" + StripTags(s[e..]) == StripTags(s[e..]);
        StripTagsLeavesNoTag(s[e..]);
      case None =>
        StripTagsLeavesNoTag(s[1..]);
        if s[0] == '<' { LoneOpeningBracket(s); }
        ConsNoTag(s[0], StripTags(s[1..]));
    }
  }

  /** A kept character in front of tag-free text leaves it tag-free, unless it opens a new tag. */
  lemma ConsNoTag(c: char, rest: string)
    requires NoTagMatch(rest)
    requires c == '<' ==> rest == [] || rest[0] == '>' || '>' !in rest
    ensures NoTagMatch([c] + rest)
  {
    var t := [c] + rest;
    forall i, j | 0 <= i && i + 1 < j < |t| && t[i] == '<' && t[j] == '>'
      ensures '>' in t[i + 1..j]
    {
      if i == 0 {
        assert rest[j - 1] == '>';
        assert t[1] == rest[0];
        assert t[1] in t[1..j];
      } else {
        assert rest[i - 1] == '<' && rest[j - 1] == '>';
        assert t[i + 1..j] == rest[i..j - 1];
      }
    }
  }

  /** A '<' that starts no tag is followed by '>' at once, or by no '>' at all. */
  lemma LoneOpeningBracket(s: string)
    requires s != [] && s[0] == '<' && MatchEnd(s, AnyTag).None?
    ensures StripTags(s[1..]) == [] || StripTags(s[1..])[0] == '>' || '>' !in StripTags(s[1..])
  {
    if 2 <= |s| && s[1] == '>' {
      assert MatchEnd(s[1..], AnyTag).None?;
    } else if 2 <= |s| {
      assert IndexOf(s, '>', 2).None?;
      assert s[1..] == [s[1]] + s[2..];
      StripTagsChars(s[1..], '>');
    }
  }

  /** Every pattern starts with '<', so text without '<' is left alone. */
  lemma {:induction false} SubWithoutBracket(s: string, pat: Pattern, repl: string)
    requires '<' !in s
    ensures Sub(s, pat, repl) == s
    decreases |s|
  {
    if s != [] {
      assert MatchEnd(s, pat).None?;
      assert '<' !in s[1..];
      SubWithoutBracket(s[1..], pat, repl);
    }
  }

  /** Text without '&' has no reference to decode. */
  lemma {:induction false} UnescapeWithoutAmpersand(s: string)
    requires '&' !in s
    ensures Unescape(s) == s
    decreases |s|
  {
    if s != [] {
      assert EntityAt(s).None?;
      assert '&' !in s[1..];
      UnescapeWithoutAmpersand(s[1..]);
    }
  }

  /** Plain text, with neither '<' nor '&', passes through html_to_text unchanged. */
  lemma HtmlToTextPlain(s: string)
    requires '<' !in s && '&' !in s
    ensures HtmlToText(s) == s
  {
    SubWithoutBracket(s, Block("head"), "");
    SubWithoutBracket(s, Block("style"), "");
    SubWithoutBracket(s, LineBreak, "\n");
    SubWithoutBracket(s, ParagraphEnd, "\n");
    SubWithoutBracket(s, AnyTag, "");
    UnescapeWithoutAmpersand(s);
  }

  // ---------------------------------------------------------------------
  // escape_html: html.escape(s, quote=True)
  // ---------------------------------------------------------------------

  /** `s.replace(c, by)` for a one-character `c`. */
  function ReplaceChar(s: string, c: char, with: string): string {
    if s == [] then [] else (if s[0] == c then with else [s[0]]) + ReplaceChar(s[1..], c, with)
  }

  /** `html.escape`: '&' first, then '<', '>', '"' and '\''. */
  function EscapeHtml(s: string): string {
    var amp := ReplaceChar(s, '&', "&amp;");
    var lt := ReplaceChar(amp, '<', "&lt;");
    var gt := ReplaceChar(lt, '>', "&gt;");
    var quot := ReplaceChar(gt, '"', "&quot;");
    ReplaceChar(quot, '\'', "&#x27;")
  }

  /** The reference definition: each character escaped on its own. */
  function EscapeChar(c: char): string {
    if c == '&' then "&amp;"
    else if c == '<' then "&lt;"
    else if c == '>' then "&gt;"
    else if c == '"' then "&quot;"
    else if c == '\'' then "&#x27;"
    else [c]
  }

  function EscapeEach(s: string): string {
    if s == [] then [] else EscapeChar(s[0]) + EscapeEach(s[1..])
  }

  /** The characters html.escape takes out of a text. */
  predicate IsMarkup(c: char) {
    c == '<' || c == '>' || c == '"' || c == '\''
  }

  predicate NoMarkup(t: string) {
    forall i :: 0 <= i < |t| ==> !IsMarkup(t[i])
  }

  lemma {:induction false} ReplaceCharAppend(a: string, b: string, c: char, with: string)
    ensures ReplaceChar(a + b, c, with) == ReplaceChar(a, c, with) + ReplaceChar(b, c, with)
    decreases |a|
  {
    if a == [] {
      assert a + b == b;
    } else {
      assert (a + b)[0] == a[0];
      assert (a + b)[1..] == a[1..] + b;
      ReplaceCharAppend(a[1..], b, c, with);
    }
  }

  lemma {:induction false} ReplaceCharAbsent(s: string, c: char, with: string)
    requires c !in s
    ensures ReplaceChar(s, c, with) == s
    decreases |s|
  {
    if s != [] {
      assert c !in s[1..];
      ReplaceCharAbsent(s[1..], c, with);
    }
  }

  lemma ReplaceCharSingle(x: char, c: char, with: string)
    ensures ReplaceChar([x], c, with) == if x == c then with else [x]
  {
    assert [x][1..] == [];
  }

  lemma EscapeHtmlAppend(a: string, b: string)
    ensures EscapeHtml(a + b) == EscapeHtml(a) + EscapeHtml(b)
  {
    var a1, b1 := ReplaceChar(a, '&', "&amp;"), ReplaceChar(b, '&', "&amp;");
    ReplaceCharAppend(a, b, '&', "&amp;");
    var a2, b2 := ReplaceChar(a1, '<', "&lt;"), ReplaceChar(b1, '<', "&lt;");
    ReplaceCharAppend(a1, b1, '<', "&lt;");
    var a3, b3 := ReplaceChar(a2, '>', "&gt;"), ReplaceChar(b2, '>', "&gt;");
    ReplaceCharAppend(a2, b2, '>', "&gt;");
    var a4, b4 := ReplaceChar(a3, '"', "&quot;"), ReplaceChar(b3, '"', "&quot;");
    ReplaceCharAppend(a3, b3, '"', "&quot;");
    ReplaceCharAppend(a4, b4, '\'', "&#x27;");
  }

  /** The replacements after the first never touch what an earlier one wrote. */
  lemma EscapeHtmlChar(c: char)
    ensures EscapeHtml([c]) == EscapeChar(c)
  {
    if c == '&' { EscapeAmpersand(c); }
    else if c == '<' { EscapeLess(c); }
    else if c == '>' { EscapeGreater(c); }
    else if c == '"' { EscapeQuote(c); }
    else if c == '\'' { EscapeApostrophe(c); }
    else { EscapeOther(c); }
  }

  /** The references `html.escape` writes hold none of the characters replaced after them. */
  lemma ReferencesFree()
    ensures '<' !in "&amp;" && '>' !in "&amp;" && '"' !in "&amp;" && '\'' !in "&amp;"
    ensures '>' !in "&lt;" && '"' !in "&lt;" && '\'' !in "&lt;"
    ensures '"' !in "&gt;" && '\'' !in "&gt;"
    ensures '\'' !in "&quot;"
  {
  }

  lemma EscapeAmpersand(c: char)
    requires c == '&'
    ensures EscapeHtml([c]) == EscapeChar(c)
  {
    ReferencesFree();
    var s1 := ReplaceChar([c], '&', "&amp;");
    ReplaceCharSingle(c, '&', "&amp;");
    assert s1 == "&amp;";
    var s2 := ReplaceChar(s1, '<', "&lt;");
    ReplaceCharAbsent(s1, '<', "&lt;");
    assert s2 == "&amp;";
    var s3 := ReplaceChar(s2, '>', "&gt;");
    ReplaceCharAbsent(s2, '>', "&gt;");
    assert s3 == "&amp;";
    var s4 := ReplaceChar(s3, '"', "&quot;");
    ReplaceCharAbsent(s3, '"', "&quot;");
    assert s4 == "&amp;";
    var s5 := ReplaceChar(s4, '\'', "&#x27;");
    ReplaceCharAbsent(s4, '\'', "&#x27;");
    assert s5 == "&amp;";
  }

  lemma EscapeLess(c: char)
    requires c == '<'
    ensures EscapeHtml([c]) == EscapeChar(c)
  {
    ReferencesFree();
    var s1 := ReplaceChar([c], '&', "&amp;");
    ReplaceCharSingle(c, '&', "&amp;");
    assert s1 == [c];
    var s2 := ReplaceChar(s1, '<', "&lt;");
    ReplaceCharSingle(c, '<', "&lt;");
    assert s2 == "&lt;";
    var s3 := ReplaceChar(s2, '>', "&gt;");
    ReplaceCharAbsent(s2, '>', "&gt;");
    assert s3 == "&lt;";
    var s4 := ReplaceChar(s3, '"', "&quot;");
    ReplaceCharAbsent(s3, '"', "&quot;");
    assert s4 == "&lt;";
    var s5 := ReplaceChar(s4, '\'', "&#x27;");
    ReplaceCharAbsent(s4, '\'', "&#x27;");
    assert s5 == "&lt;";
  }

  lemma EscapeGreater(c: char)
    requires c == '>'
    ensures EscapeHtml([c]) == EscapeChar(c)
  {
    ReferencesFree();
    var s1 := ReplaceChar([c], '&', "&amp;");
    ReplaceCharSingle(c, '&', "&amp;");
    assert s1 == [c];
    var s2 := ReplaceChar(s1, '<', "&lt;");
    ReplaceCharSingle(c, '<', "&lt;");
    assert s2 == [c];
    var s3 := ReplaceChar(s2, '>', "&gt;");
    ReplaceCharSingle(c, '>', "&gt;");
    assert s3 == "&gt;";
    var s4 := ReplaceChar(s3, '"', "&quot;");
    ReplaceCharAbsent(s3, '"', "&quot;");
    assert s4 == "&gt;";
    var s5 := ReplaceChar(s4, '\'', "&#x27;");
    ReplaceCharAbsent(s4, '\'', "&#x27;");
    assert s5 == "&gt;";
  }

  lemma EscapeQuote(c: char)
    requires c == '"'
    ensures EscapeHtml([c]) == EscapeChar(c)
  {
    ReferencesFree();
    var s1 := ReplaceChar([c], '&', "&amp;");
    ReplaceCharSingle(c, '&', "&amp;");
    assert s1 == [c];
    var s2 := ReplaceChar(s1, '<', "&lt;");
    ReplaceCharSingle(c, '<', "&lt;");
    assert s2 == [c];
    var s3 := ReplaceChar(s2, '>', "&gt;");
    ReplaceCharSingle(c, '>', "&gt;");
    assert s3 == [c];
    var s4 := ReplaceChar(s3, '"', "&quot;");
    ReplaceCharSingle(c, '"', "&quot;");
    assert s4 == "&quot;";
    var s5 := ReplaceChar(s4, '\'', "&#x27;");
    ReplaceCharAbsent(s4, '\'', "&#x27;");
    assert s5 == "&quot;";
  }

  lemma EscapeApostrophe(c: char)
    requires c == '\''
    ensures EscapeHtml([c]) == EscapeChar(c)
  {
    var s1 := ReplaceChar([c], '&', "&amp;");
    ReplaceCharSingle(c, '&', "&amp;");
    assert s1 == [c];
    var s2 := ReplaceChar(s1, '<', "&lt;");
    ReplaceCharSingle(c, '<', "&lt;");
    assert s2 == [c];
    var s3 := ReplaceChar(s2, '>', "&gt;");
    ReplaceCharSingle(c, '>', "&gt;");
    assert s3 == [c];
    var s4 := ReplaceChar(s3, '"', "&quot;");
    ReplaceCharSingle(c, '"', "&quot;");
    assert s4 == [c];
    var s5 := ReplaceChar(s4, '\'', "&#x27;");
    ReplaceCharSingle(c, '\'', "&#x27;");
    assert s5 == "&#x27;";
  }

  lemma EscapeOther(c: char)
    requires !(c == '&' || c == '<' || c == '>' || c == '"' || c == '\'')
    ensures EscapeHtml([c]) == EscapeChar(c)
  {
    ReplaceCharSingle(c, '&', "&amp;");
    ReplaceCharSingle(c, '<', "&lt;");
    ReplaceCharSingle(c, '>', "&gt;");
    ReplaceCharSingle(c, '"', "&quot;");
    ReplaceCharSingle(c, '\'', "&#x27;");
  }

  /** The chain of replacements escapes each character on its own. */
  lemma {:induction false} EscapeHtmlIsPerCharacter(s: string)
    ensures EscapeHtml(s) == EscapeEach(s)
    decreases |s|
  {
    if s != [] {
      assert s == [s[0]] + s[1..];
      EscapeHtmlAppend([s[0]], s[1..]);
      EscapeHtmlChar(s[0]);
      EscapeHtmlIsPerCharacter(s[1..]);
    }
  }

  lemma {:induction false} EscapeEachNoMarkup(s: string)
    ensures NoMarkup(EscapeEach(s))
    decreases |s|
  {
    if s != [] {
      EscapeEachNoMarkup(s[1..]);
      var head, tail := EscapeChar(s[0]), EscapeEach(s[1..]);
      assert NoMarkup(head);
      forall i | 0 <= i < |head + tail| ensures !IsMarkup((head + tail)[i]) {
        if i >= |head| { assert (head + tail)[i] == tail[i - |head|]; }
      }
    }
  }

  /** The escaped text holds no raw '<', '>', '"' or '\''. */
  lemma EscapeHtmlNoMarkup(s: string)
    ensures NoMarkup(EscapeHtml(s))
  {
    EscapeHtmlIsPerCharacter(s);
    EscapeEachNoMarkup(s);
  }

  /** Decoding one escaped character gives it back and leaves the rest to follow. */
  lemma UnescapeEscapedChar(c: char, t: string)
    ensures Unescape(EscapeChar(c) + t) == [c] + Unescape(t)
  {
    var e := EscapeChar(c);
    assert (e + t)[|e|..] == t;
    if c == '&' || c == '<' || c == '>' || c == '"' || c == '\'' {
      EntityOfEscape(c, t);
    } else {
      assert (e + t)[0] == c;
    }
  }

  /** Each reference html.escape writes is read back as the character it stands for. */
  lemma EntityOfEscape(c: char, t: string)
    requires c == '&' || c == '<' || c == '>' || c == '"' || c == '\''
    ensures EntityAt(EscapeChar(c) + t) == Some((|EscapeChar(c)|, c))
  {
    var e := EscapeChar(c);
    var s := e + t;
    assert s[..|e|] == e;
    assert forall i :: 0 <= i < |e| ==> s[i] == e[i];
    if c == '<' {
      assert s[1] == 'l';
    } else if c == '>' {
      assert s[1] == 'g';
    } else if c == '"' {
      assert s[1] == 'q';
    } else if c == '\'' {
      assert s[1] == '#';
    }
  }

  /** Unescaping the five references html.escape writes gives back the input. */
  lemma {:induction false} UnescapeEscapeHtml(s: string)
    ensures Unescape(EscapeHtml(s)) == s
    decreases |s|
  {
    EscapeHtmlIsPerCharacter(s);
    if s != [] {
      UnescapeEscapedChar(s[0], EscapeEach(s[1..]));
      UnescapeEscapeHtml(s[1..]);
      EscapeHtmlIsPerCharacter(s[1..]);
    }
  }
  /** Every '&' is followed by something other than 'l'. */
  predicate AmpNotBeforeL(t: string) {
    forall i :: 0 <= i < |t| && t[i] == '&' ==> i + 1 < |t| && t[i + 1] != 'l'
  }

  lemma {:induction false} EscapeEachAmpNotBeforeL(s: string)
    requires '<' !in s
    ensures AmpNotBeforeL(EscapeEach(s))
    decreases |s|
  {
    if s != [] {
      assert '<' !in s[1..];
      EscapeEachAmpNotBeforeL(s[1..]);
      var head, tail := EscapeChar(s[0]), EscapeEach(s[1..]);
      assert AmpNotBeforeL(head) && (head[|head| - 1] != '&');
      var t := head + tail;
      forall i | 0 <= i < |t| && t[i] == '&' ensures i + 1 < |t| && t[i + 1] != 'l' {
        if i >= |head| {
          assert t[i] == tail[i - |head|] && t[i + 1] == tail[i + 1 - |head|];
        } else {
          assert t[i] == head[i] && t[i + 1] == head[i + 1];
        }
      }
    }
  }

  /**
   * Since html.escape turns every '&' into "&amp;", the reference "&lt;"
   * appears in an escaped text only where the input held a '<'.
   */
  lemma EscapeHtmlNoLtRef(s: string)
    requires '<' !in s
    ensures AmpNotBeforeL(EscapeHtml(s))
    ensures forall i :: 0 <= i <= |EscapeHtml(s)| ==> !StartsWith(EscapeHtml(s)[i..], "&lt;")
  {
    EscapeHtmlIsPerCharacter(s);
    EscapeEachAmpNotBeforeL(s);
    var t := EscapeHtml(s);
    forall i | 0 <= i <= |t| ensures !StartsWith(t[i..], "&lt;") {
      if i + 1 < |t| {
        assert t[i..][0] == t[i] && t[i..][1] == t[i + 1];
      }
    }
  }

  lemma {:induction false} EscapeEachPlain(s: string)
    requires '&' !in s && NoMarkup(s)
    ensures EscapeEach(s) == s
    decreases |s|
  {
    if s != [] {
      assert !IsMarkup(s[0]) && '&' !in s[1..] && NoMarkup(s[1..]);
      EscapeEachPlain(s[1..]);
      assert s == [s[0]] + s[1..];
    }
  }

  /** A text without '&', '<', '>', '"' and '\'' is left as it is. */
  lemma EscapeHtmlPlain(s: string)
    requires '&' !in s && NoMarkup(s)
    ensures EscapeHtml(s) == s
  {
    EscapeHtmlIsPerCharacter(s);
    EscapeEachPlain(s);
  }

  lemma {:induction false} EscapeEachKeepsChar(s: string, c: char)
    requires c !in s && c != '&' && c != ';' && !IsMarkup(c)
    requires !('a' <= c <= 'z') && !('0' <= c <= '9') && c != '#'
    ensures c !in EscapeEach(s)
    decreases |s|
  {
    if s != [] {
      assert c !in s[1..];
      EscapeEachKeepsChar(s[1..], c);
    }
  }

  /** Escaping introduces no character outside the ones its references use. */
  lemma EscapeHtmlKeepsAbsent(s: string, c: char)
    requires c !in s && c != '&' && c != ';' && !IsMarkup(c)
    requires !('a' <= c <= 'z') && !('0' <= c <= '9') && c != '#'
    ensures c !in EscapeHtml(s)
  {
    EscapeHtmlIsPerCharacter(s);
    EscapeEachKeepsChar(s, c);
  }

  // ---------------------------------------------------------------------
  // What the substitutions of html_to_text remove and rewrite
  // ---------------------------------------------------------------------

  /** `\s*` stops after a run of whitespace, at the first character that is not. */
  lemma {:induction false} SkipSpacesRun(s: string, from: nat, n: nat)
    requires from + n <= |s| && AllSpace(s[from..from + n])
    requires from + n < |s| ==> !IsSpace(s[from + n])
    ensures SkipSpaces(s, from) == from + n
    decreases n
  {
    if n > 0 {
      assert s[from] == s[from..from + n][0];
      assert s[from + 1..from + n] == s[from..from + n][1..];
      SkipSpacesRun(s, from + 1, n - 1);
    }
  }

  // "<br" in any case, a run of whitespace, then ">" or "/>" is one match
  // of `(?i)<br\s*/?>`, and it is replaced by a line break.
  lemma LineBreakReplaced(s: string, p: nat, e: nat)
    requires StartsWithCI(s, "<br") && 3 <= p < |s| && AllSpace(s[3..p])
    requires (s[p] == '>' && e == p + 1) || (p + 1 < |s| && s[p] == '/' && s[p + 1] == '>' && e == p + 2)
    ensures MatchEnd(s, LineBreak) == Some(e)
    ensures Sub(s, LineBreak, "\n") == "\n" + Sub(s[e..], LineBreak, "\n")
  {
    SkipSpacesRun(s, 3, p - 3);
    assert MatchEnd(s, LineBreak) == LineBreakEnd(s) == Some(e);
    SubAtMatch(s, LineBreak, "\n", e);
  }

  /** `<BR />` is a line break. */
  lemma UpperCaseLineBreak(t: string)
    ensures Sub("<BR />" + t, LineBreak, "\n") == "\n" + Sub(t, LineBreak, "\n")
  {
    var s := "<BR />" + t;
    assert s[..6] == "<BR />";
    assert StartsWithCI(s, "<br") by {
      assert MatchesCI(s[0], '<') && MatchesCI(s[1], 'b') && MatchesCI(s[2], 'r');
    }
    assert AllSpace(s[3..4]) by {
      assert s[3..4] == [s[3]] && s[3] == ' ';
    }
    LineBreakReplaced(s, 4, 6);
    assert s[6..] == t;
  }

  /** `(?i)</p>` replaces a closing paragraph tag, in any case, by a line break. */
  lemma ParagraphEndReplaced(close: string, t: string)
    requires |close| == 4 && StartsWithCI(close, "</p>")
    ensures Sub(close + t, ParagraphEnd, "\n") == "\n" + Sub(t, ParagraphEnd, "\n")
  {
    var s := close + t;
    assert StartsWithCI(s, "</p>") by {
      forall i | 0 <= i < 4 ensures MatchesCI(s[i], "</p>"[i]) {
        assert s[i] == close[i];
      }
    }
    assert s[4..] == t;
  }

  /**
   * `<tag.*?>.*?</tag>`, with `.` matching line breaks and case ignored,
   * matches a block together with everything it holds: from the opening
   * tag, through its first '>', up to the first closing tag after that;
   * the substitution drops the whole match.
   */
  lemma {:induction false} BlockRemoved(tag: string, s: string, j: nat, k: nat)
    requires StartsWithCI(s, "<" + tag)
    requires |tag| + 1 <= j < |s| && s[j] == '>' && '>' !in s[|tag| + 1..j]
    requires j + 1 <= k && k + |tag| + 3 <= |s| && StartsWithCI(s[k..], "</" + tag + ">")
    requires forall m :: j + 1 <= m < k ==> !StartsWithCI(s[m..], "</" + tag + ">")
    ensures MatchEnd(s, Block(tag)) == Some(k + |tag| + 3)
    ensures Sub(s, Block(tag), "") == Sub(s[k + |tag| + 3..], Block(tag), "")
  {
    assert MatchEnd(s, Block(tag)) == Some(k + |tag| + 3) by {
      IndexOfIs(s, '>', |tag| + 1, j);
      FindCIIs(s, "</" + tag + ">", j + 1, k);
      assert MatchEnd(s, Block(tag)) == BlockEnd(s, tag);
    }
    RemovedAtMatch(s, Block(tag), k + |tag| + 3);
  }

  /** A match at the start is replaced, and the search goes on after it. */
  lemma SubAtMatch(s: string, pat: Pattern, repl: string, e: nat)
    requires MatchEnd(s, pat) == Some(e)
    ensures Sub(s, pat, repl) == repl + Sub(s[e..], pat, repl)
  {
  }

  /** A match at the start is removed, and the search goes on after it. */
  lemma RemovedAtMatch(s: string, pat: Pattern, e: nat)
    requires MatchEnd(s, pat) == Some(e)
    ensures Sub(s, pat, "") == Sub(s[e..], pat, "")
  {
    SubAtMatch(s, pat, "", e);
    assert "" + Sub(s[e..], pat, "") == Sub(s[e..], pat, "");
  }

  /** `IndexOf` finds the first occurrence and no other. */
  lemma IndexOfIs(s: string, c: char, from: nat, j: nat)
    requires from <= j < |s| && s[j] == c && c !in s[from..j]
    ensures IndexOf(s, c, from) == Some(j)
  {
    var r := IndexOf(s, c, from);
    assert s[from..][j - from] == c;
  }

  /** `FindCI` finds the first match and no other. */
  lemma FindCIIs(s: string, p: string, from: nat, k: nat)
    requires from <= k && k + |p| <= |s| && StartsWithCI(s[k..], p)
    requires forall m :: from <= m < k ==> !StartsWithCI(s[m..], p)
    ensures FindCI(s, p, from) == Some(k)
  {
  }

  /**
   * References are decoded only after the tags are stripped, so markup
   * written as references reaches the text as markup: "&lt;b&gt;", the
   * escape of "<b>", comes out as "<b>".
   */
  lemma HtmlToTextOfEscaped(s: string)
    ensures HtmlToText(EscapeHtml(s)) == s
  {
    var t := EscapeHtml(s);
    EscapeHtmlNoMarkup(s);
    SubWithoutBracket(t, Block("head"), "");
    SubWithoutBracket(t, Block("style"), "");
    SubWithoutBracket(t, LineBreak, "\n");
    SubWithoutBracket(t, ParagraphEnd, "\n");
    SubWithoutBracket(t, AnyTag, "");
    UnescapeEscapeHtml(s);
  }
}
