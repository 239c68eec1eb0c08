/**
  The YouTube product widgets (`youtube-product.js` and its hybrid-layout copy, whose
  matching and formatting helpers have the same logic): matching a video to a
  catalogue product by a `[제품코드:CODE]` tag in its description or, failing that,
  by keywords, and the small text helpers around the video cards. Clocks are
  parameters in milliseconds; the `Date` parsing of `publishedAt` and the locale
  number and date texts are not part of this model.
 */
module YouTube {
  import opened Wrappers
  import opened Text

  /* ---------- product code tag ---------- */

  /** The literal start of the tag pattern `\[제품코드:\s*([A-Z0-9]+)\]`. */
  const Tag: string := "[제품코드:"

  /** `[A-Z0-9]`. */
  predicate IsCodeChar(c: char) {
    'A' <= c <= 'Z' || '0' <= c <= '9'
  }

  predicate IsCode(s: string) {
    |s| > 0 && forall i :: 0 <= i < |s| ==> IsCodeChar(s[i])
  }

  /** A run of code characters closed by `]`: the run, or nothing. */
  function CodeClosed(u: string): (r: Option<string>)
    ensures r.Some? ==> IsCode(r.value)
  {
    var k := PrefixWhile(u, IsCodeChar);
    if 0 < k < |u| && u[k] == ']' then
      assert forall j :: 0 <= j < k ==> u[..k][j] == u[j];
      Some(u[..k])
    else None
  }

  /**
    What follows the literal start of the tag: optional spaces, the code, then `]`.
    Neither quantifier can give back characters to let the match succeed (a space is
    not a code character and a code character is not `]`), so the greedy runs decide it.
   */
  function CodeIn(t: string): (r: Option<string>)
    ensures r.Some? ==> IsCode(r.value)
  {
    CodeClosed(t[PrefixWhile(t, IsSpace)..])
  }

  /** The tag pattern tried at position `i`. */
  function CodeAt(s: string, i: nat): (r: Option<string>)
    ensures r.Some? ==> IsCode(r.value) && OccursAt(s, Tag, i)
  {
    if !OccursAt(s, Tag, i) then None else CodeIn(s[i + |Tag|..])
  }

  /** `description.match(pattern)`: the leftmost position at or after `from` where the tag pattern matches. */
  function FirstCode(s: string, from: nat): (r: Option<(nat, string)>)
    ensures r.None? <==> forall i :: from <= i ==> CodeAt(s, i).None?
    ensures r.Some? ==> from <= r.value.0 && CodeAt(s, r.value.0) == Some(r.value.1)
    ensures r.Some? ==> forall i :: from <= i < r.value.0 ==> CodeAt(s, i).None?
    decreases |s| - from
  {
    if from >= |s| then
      forall i | from <= i ensures CodeAt(s, i).None? {
        NoTagAt(s, i);
      }
      None
    else if CodeAt(s, from).Some? then Some((from, CodeAt(s, from).value))
    else FirstCode(s, from + 1)
  }

  /** `parseProductCode(description)`: the code of the leftmost tag, or nothing. */
  function ParseProductCode(description: string): (r: Option<string>)
    ensures r.None? <==> forall i :: CodeAt(description, i).None?
    ensures r.Some? ==> IsCode(r.value)
    ensures r.Some? ==> exists i: nat :: CodeAt(description, i) == Some(r.value) && forall j :: 0 <= j < i ==> CodeAt(description, j).None?
  {
    if description == "" then None
    else
      var m := FirstCode(description, 0);
      if m.None? then None else Some(m.value.1)
  }

  /** No tag starts where there is no `[`. */
  lemma NoTagAt(s: string, i: nat)
    requires i < |s| ==> s[i] != '['
    ensures CodeAt(s, i).None?
  {
    if i + |Tag| <= |s| {
      assert s[i..i + |Tag|][0] == s[i];
    }
  }

  /** The pattern matches at the start of a written-out tag, with its code. */
  lemma CodeAtTag(prefix: string, spaces: string, code: string, rest: string)
    requires AllSpace(spaces) && IsCode(code)
    ensures CodeAt(prefix + Tag + spaces + code + "]" + rest, |prefix|) == Some(code)
  {
    var t := spaces + code + "]" + rest;
    Regroup(prefix, Tag, spaces, code, "]", rest);
    OccursAfter(prefix, Tag, t);
    CodeInTail(spaces, code, rest);
  }

  lemma Regroup(a: string, b: string, c: string, d: string, e: string, f: string)
    ensures a + b + c + d + e + f == (a + b) + (c + d + e + f)
  {
  }

  /** A word written after some text occurs right there. */
  lemma OccursAfter(a: string, w: string, b: string)
    ensures OccursAt((a + w) + b, w, |a|) && ((a + w) + b)[|a| + |w|..] == b
  {
    assert ((a + w) + b)[|a|..|a| + |w|] == w;
  }

  /** After the tag: the spaces, then the code, then `]`. */
  lemma CodeInTail(spaces: string, code: string, rest: string)
    requires AllSpace(spaces) && IsCode(code)
    ensures CodeIn(spaces + code + "]" + rest) == Some(code)
  {
    var u := code + ("]" + rest);
    assert spaces + code + "]" + rest == spaces + u;
    CodeRun(code, "]" + rest);
    SpaceRun(spaces, u);
  }

  /** A code followed by `]` is read as that code. */
  lemma CodeRun(code: string, v: string)
    requires IsCode(code) && |v| > 0 && v[0] == ']'
    ensures CodeClosed(code + v) == Some(code)
  {
    PrefixWhileConcat(code, v, IsCodeChar);
    assert (code + v)[..|code|] == code;
  }

  /** Spaces followed by a code character are a maximal run of spaces. */
  lemma SpaceRun(spaces: string, u: string)
    requires AllSpace(spaces) && |u| > 0 && IsCodeChar(u[0])
    ensures PrefixWhile(spaces + u, IsSpace) == |spaces| && (spaces + u)[|spaces|..] == u
  {
    PrefixWhileConcat(spaces, u, IsSpace);
  }

  /** A tag, after text without any `[`, is read back as its code. */
  lemma ParseTaggedDescription(prefix: string, spaces: string, code: string, rest: string)
    requires '[' !in prefix
    requires AllSpace(spaces) && IsCode(code)
    ensures ParseProductCode(prefix + Tag + spaces + code + "]" + rest) == Some(code)
  {
    var s := prefix + Tag + spaces + code + "]" + rest;
    CodeAtTag(prefix, spaces, code, rest);
    forall i: nat | i < |prefix| ensures CodeAt(s, i).None? {
      assert s[i] == prefix[i];
      NoTagAt(s, i);
    }
  }

  /* ---------- keyword matching ---------- */

  /**
    The mapping sheet: the catalogue by product code, and keyword entries in the
    order the `for..in` loop visits them, each with its list of product codes.
   */
  datatype Mapping<P> = Mapping(products: map<string, P>, keywords: seq<(string, seq<string>)>)

  datatype Video = Video(id: string, title: string, description: string)

  /** `(title + ' ' + description).toLowerCase()`. */
  function SearchText(title: string, description: string): string {
    ToLower(title + " " + description)
  }

  /** Keyword entry `k` matches: its lower-cased word occurs in the text and its first code is in the catalogue. */
  predicate KeywordHit<P>(m: Mapping<P>, text: string, k: nat)
    requires k < |m.keywords|
  {
    var codes := m.keywords[k].1;
    Includes(text, ToLower(m.keywords[k].0)) && |codes| > 0 && codes[0] in m.products
  }

  /** The first matching keyword entry at or after `from`. */
  function FirstHit<P>(m: Mapping<P>, text: string, from: nat): (r: Option<nat>)
    ensures r.None? <==> forall k :: from <= k < |m.keywords| ==> !KeywordHit(m, text, k)
    ensures r.Some? ==> from <= r.value < |m.keywords| && KeywordHit(m, text, r.value)
    ensures r.Some? ==> forall k :: from <= k < r.value ==> !KeywordHit(m, text, k)
    decreases |m.keywords| - from
  {
    if from >= |m.keywords| then None
    else if KeywordHit(m, text, from) then Some(from)
    else FirstHit(m, text, from + 1)
  }

  /** `matchByKeywords(title, description)`: the product of the first matching keyword entry. */
  function MatchByKeywords<P>(mapping: Option<Mapping<P>>, title: string, description: string): (r: Option<P>)
    ensures mapping.None? ==> r.None?
    ensures mapping.Some? ==> (r.None? <==> forall k :: 0 <= k < |mapping.value.keywords| ==> !KeywordHit(mapping.value, SearchText(title, description), k))
    ensures r.Some? ==> mapping.Some?
    ensures r.Some? ==>
      exists k ::
        && 0 <= k < |mapping.value.keywords|
        && KeywordHit(mapping.value, SearchText(title, description), k)
        && r.value == mapping.value.products[mapping.value.keywords[k].1[0]]
        && forall j :: 0 <= j < k ==> !KeywordHit(mapping.value, SearchText(title, description), j)
  {
    if mapping.None? then None
    else
      var m := mapping.value;
      var hit := FirstHit(m, SearchText(title, description), 0);
      if hit.None? then None else Some(m.products[m.keywords[hit.value].1[0]])
  }

  /** A word found in the title is found in the search text. */
  lemma TitleWordInSearchText(title: string, description: string, word: string)
    requires Includes(ToLower(title), ToLower(word))
    ensures Includes(SearchText(title, description), ToLower(word))
  {
    var q := ToLower(word);
    var t := ToLower(title);
    var text := SearchText(title, description);
    IncludesIffOccurs(t, q);
    var i :| OccursAt(t, q, i);
    forall k | 0 <= k < |q| ensures text[i + k] == q[k] {
      assert (title + " " + description)[i + k] == title[i + k];
      assert t[i..i + |q|][k] == t[i + k];
    }
    assert text[i..i + |q|] == q;
    assert OccursAt(text, q, i);
    IncludesIffOccurs(text, q);
  }

  /** When the first keyword entry names a catalogued product and its word is in the title, that product is the keyword match. */
  lemma FirstKeywordWins<P>(m: Mapping<P>, title: string, description: string)
    requires |m.keywords| > 0 && |m.keywords[0].1| > 0 && m.keywords[0].1[0] in m.products
    requires Includes(ToLower(title), ToLower(m.keywords[0].0))
    ensures MatchByKeywords(Some(m), title, description) == Some(m.products[m.keywords[0].1[0]])
  {
    TitleWordInSearchText(title, description, m.keywords[0].0);
  }

  /* ---------- matchProduct ---------- */

  /** `matchProduct(video)`: a catalogued tag code first, then the keywords, otherwise nothing. */
  function MatchProduct<P>(mapping: Option<Mapping<P>>, video: Video): (r: Option<P>)
    ensures mapping.None? ==> r.None?
    ensures mapping.Some? && ParseProductCode(video.description).Some? && ParseProductCode(video.description).value in mapping.value.products
            ==> r == Some(mapping.value.products[ParseProductCode(video.description).value])
    ensures !(ParseProductCode(video.description).Some? && mapping.Some? && ParseProductCode(video.description).value in mapping.value.products)
            ==> r == MatchByKeywords(mapping, video.title, video.description)
  {
    if mapping.None? then None
    else
      var code := ParseProductCode(video.description);
      if code.Some? && code.value in mapping.value.products then Some(mapping.value.products[code.value])
      else MatchByKeywords(mapping, video.title, video.description)
  }

  /** A video tagged with a catalogued code gets that product, whatever its keywords say. */
  lemma TaggedVideoMatches<P>(m: Mapping<P>, video: Video, prefix: string, spaces: string, code: string, rest: string)
    requires '[' !in prefix && AllSpace(spaces) && IsCode(code)
    requires video.description == prefix + Tag + spaces + code + "]" + rest
    requires code in m.products
    ensures MatchProduct(Some(m), video) == Some(m.products[code])
  {
    ParseTaggedDescription(prefix, spaces, code, rest);
  }

  /** A description without any `[` holds no tag, so the keywords decide. */
  lemma UntaggedFallsBack<P>(mapping: Option<Mapping<P>>, video: Video)
    requires '[' !in video.description
    ensures MatchProduct(mapping, video) == MatchByKeywords(mapping, video.title, video.description)
  {
    UntaggedHasNoCode(video.description);
  }

  /** Text without any `[` has no product code. */
  lemma UntaggedHasNoCode(description: string)
    requires '[' !in description
    ensures ParseProductCode(description).None?
  {
    forall i: nat ensures CodeAt(description, i).None? {
      NoTagAt(description, i);
    }
  }

  /* ---------- card text helpers ---------- */

  /** `1000 * 60 * 60 * 24`: a day in milliseconds. */
  const Day: int := 1000 * 60 * 60 * 24

  /** `CONFIG.newVideoDays`. */
  const NewVideoDays: int := 3

  /** `isNewVideo(publishedAt)`: whole days elapsed, rounded down, at most three. */
  function IsNewVideo(now: int, published: int): (r: bool)
    ensures r <==> now - published < (NewVideoDays + 1) * Day
  {
    (now - published) / Day <= NewVideoDays
  }

  /** The kinds of text `formatViewCount` produces. */
  datatype ViewText = Counting | TenThousands(count: int) | Plain(count: int)

  /** `formatViewCount(viewCount)`; `count` is `parseInt(viewCount)`, `None` for `NaN`. */
  function FormatViewCount(count: Option<int>): (r: ViewText)
    ensures r == Counting <==> count.None? || count.value == 0
    ensures r.TenThousands? <==> count.Some? && count.value >= 10000
    ensures !r.Counting? ==> r.count == count.value
  {
    if count.None? || count.value == 0 then Counting
    else if count.value >= 10000 then TenThousands(count.value)
    else Plain(count.value)
  }

  /** The kinds of text `formatDate` produces. */
  datatype DateText = Today | Yesterday | DaysAgo(days: int) | WeeksAgo(weeks: int) | Absolute

  /** `formatDate(date)`: by whole days elapsed, rounded down. */
  function FormatDate(now: int, date: int): (r: DateText)
    ensures r == Today <==> 0 <= now - date < Day
    ensures r == Yesterday <==> Day <= now - date < 2 * Day
    ensures r.WeeksAgo? <==> 7 * Day <= now - date < 30 * Day
    ensures r == Absolute <==> 30 * Day <= now - date
    ensures r.DaysAgo? ==> r.days < 7 && r.days * Day <= now - date < (r.days + 1) * Day
    ensures r.WeeksAgo? ==> 1 <= r.weeks <= 4
    ensures r.WeeksAgo? ==> r.weeks == ((now - date) / Day) / 7
    ensures r.WeeksAgo? ==> 7 * r.weeks * Day <= now - date < 7 * (r.weeks + 1) * Day
  {
    var days := (now - date) / Day;
    if days == 0 then Today
    else if days == 1 then Yesterday
    else if days < 7 then DaysAgo(days)
    else if days < 30 then WeeksAgo(days / 7)
    else Absolute
  }

  /** A date in the future falls into the "days ago" text with a negative count. */
  lemma FutureDateIsNegativeDays(now: int, date: int)
    requires date > now
    ensures FormatDate(now, date).DaysAgo? && FormatDate(now, date).days < 0
  {
  }

  /** `truncateTitle(title, maxLength)`; `maxLength` is `0` when it is not given, like the `|| 50` default sees it. */
  function TruncateTitle(title: string, maxLength: int): (r: string)
    ensures var limit := if maxLength == 0 then 50 else maxLength;
            && (|title| <= limit ==> r == title)
            && (title != "" && |title| > limit ==> r == title[..if limit < 0 then 0 else limit] + "...")
            && (title == "" ==> r == "")
  {
    var limit := if maxLength == 0 then 50 else maxLength;
    if title != "" && |title| > limit then title[..if limit < 0 then 0 else limit] + "..." else title
  }

  /** A truncated title is a prefix of the original followed by `...`, at most three characters over the limit. */
  lemma TruncatedTitleBounds(title: string, maxLength: nat)
    ensures var limit := if maxLength == 0 then 50 else maxLength;
            && |TruncateTitle(title, maxLength)| <= limit + 3
            && (|title| > limit ==> StartsWith(TruncateTitle(title, maxLength), title[..limit]))
  {
  }

  /** The replacement of one character by `escapeHtml`. */
  function EscapeChar(c: char): string {
    match c
    case '&' => "&amp;"
    case '<' => "&lt;"
    case '>' => "&gt;"
    case '"' => "&quot;"
    case '\'' => "&#039;"
    case _ => [c]
  }

  /** `escapeHtml(text)`: every `& < > " '` replaced by its entity. */
  function EscapeHtml(text: string): (r: string)
    ensures |r| >= |text|
  {
    if text == "" then "" else EscapeChar(text[0]) + EscapeHtml(text[1..])
  }

  /** The characters that end or open markup or an attribute value. */
  predicate Markup(c: char) {
    c == '<' || c == '>' || c == '"' || c == '\''
  }

  /** Reading the five entities back; the inverse of `EscapeHtml`. */
  function UnescapeHtml(s: string): string
    decreases |s|
  {
    if s == "" then ""
    else if s[0] == '&' && StartsWith(s, "&amp;") then "&" + UnescapeHtml(s[5..])
    else if s[0] == '&' && StartsWith(s, "&lt;") then "<" + UnescapeHtml(s[4..])
    else if s[0] == '&' && StartsWith(s, "&gt;") then ">" + UnescapeHtml(s[4..])
    else if s[0] == '&' && StartsWith(s, "&quot;") then "\"" + UnescapeHtml(s[6..])
    else if s[0] == '&' && StartsWith(s, "&#039;") then "'" + UnescapeHtml(s[6..])
    else [s[0]] + UnescapeHtml(s[1..])
  }

  /** Escaped text holds none of `< > " '`. */
  lemma {:induction false} EscapedHasNoMarkup(text: string)
    ensures forall i :: 0 <= i < |EscapeHtml(text)| ==> !Markup(EscapeHtml(text)[i])
    decreases |text|
  {
    if text != "" {
      EscapedHasNoMarkup(text[1..]);
      var e := EscapeChar(text[0]);
      assert forall i :: 0 <= i < |e| ==> !Markup(e[i]);
      var r := EscapeHtml(text);
      assert r == e + EscapeHtml(text[1..]);
      forall i | 0 <= i < |r| ensures !Markup(r[i]) {
        if i >= |e| {
          assert r[i] == EscapeHtml(text[1..])[i - |e|];
        }
      }
    }
  }

  /** Un-escaping one escaped character in front of any text. */
  lemma UnescapeChar(c: char, rest: string)
    ensures UnescapeHtml(EscapeChar(c) + rest) == [c] + UnescapeHtml(rest)
  {
    match c
    case '&' => UnescapeAmp(rest);
    case '<' => UnescapeLt(rest);
    case '>' => UnescapeGt(rest);
    case '"' => UnescapeQuot(rest);
    case '\'' => UnescapeApos(rest);
    case _ => EntityFront([c], rest);
  }

  /** Each of the five entities, in front of any text, reads back as its character. */
  lemma UnescapeAmp(rest: string)
    ensures UnescapeHtml("&amp;" + rest) == "&" + UnescapeHtml(rest)
  {
    EntityFront("&amp;", rest);
  }

  lemma UnescapeLt(rest: string)
    ensures UnescapeHtml("&lt;" + rest) == "<" + UnescapeHtml(rest)
  {
    EntityFront("&lt;", rest);
    assert ("&lt;" + rest)[1] == 'l';
  }

  lemma UnescapeGt(rest: string)
    ensures UnescapeHtml("&gt;" + rest) == ">" + UnescapeHtml(rest)
  {
    EntityFront("&gt;", rest);
    assert ("&gt;" + rest)[1] == 'g';
  }

  lemma UnescapeQuot(rest: string)
    ensures UnescapeHtml("&quot;" + rest) == "\"" + UnescapeHtml(rest)
  {
    EntityFront("&quot;", rest);
    assert ("&quot;" + rest)[1] == 'q';
  }

  lemma UnescapeApos(rest: string)
    ensures UnescapeHtml("&#039;" + rest) == "'" + UnescapeHtml(rest)
  {
    EntityFront("&#039;", rest);
    assert ("&#039;" + rest)[1] == '#';
  }

  /** Text in front of the rest: the front is a prefix, and cutting it off leaves the rest. */
  lemma EntityFront(e: string, rest: string)
    ensures StartsWith(e + rest, e) && (e + rest)[|e|..] == rest
    ensures forall k :: 0 <= k < |e| ==> (e + rest)[k] == e[k]
  {
    assert (e + rest)[..|e|] == e;
  }

  /** Escaping loses nothing: un-escaping gives the text back. */
  lemma {:induction false} UnescapeEscape(text: string)
    ensures UnescapeHtml(EscapeHtml(text)) == text
    decreases |text|
  {
    if text != "" {
      UnescapeChar(text[0], EscapeHtml(text[1..]));
      UnescapeEscape(text[1..]);
      assert [text[0]] + text[1..] == text;
    }
  }

  /** Text without `&` or markup characters is left as it is. */
  lemma {:induction false} EscapePlain(text: string)
    requires forall i :: 0 <= i < |text| ==> text[i] != '&' && !Markup(text[i])
    ensures EscapeHtml(text) == text
    decreases |text|
  {
    if text != "" {
      EscapePlain(text[1..]);
      assert [text[0]] + text[1..] == text;
    }
  }
}
