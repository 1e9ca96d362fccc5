/** The two case-insensitive textual scans of `extract_links` and what
    `findall` returns for them: the attribute scan (the first group of each
    match) and the bare-URL scan (each whole match). Matches are taken
    leftmost and without overlap; greedy repetition and backtracking are
    resolved here by hand, for these two patterns only. */
module Scan {
  import opened Text

  datatype Option<T> = None | Some(value: T)

  /** The attribute names of `attr_pattern`, in the source's order. */
  const AttributeNames: seq<string> := ["href", "src", "data-url", "data-href", "data-src", "data-mp3", "data-ogg"]

  /** The extension words of `ext_pattern` and of the bare-URL pattern. */
  const ExtensionWords: seq<string> := ["mp3", "wav", "ogg", "flac", "aac", "m4a"]

  predicate IsQuote(c: char)
  {
    c == '\'' || c == '"'
  }

  /** `\s` of Python's `re` on `str`: the characters `str.isspace()` accepts. */
  predicate IsSpace(c: char)
  {
    var n := c as int;
    (9 <= n <= 13) || (28 <= n <= 32) || n == 0x85 || n == 0xA0 || n == 0x1680
    || (0x2000 <= n <= 0x200A) || n == 0x2028 || n == 0x2029 || n == 0x202F
    || n == 0x205F || n == 0x3000
  }

  /** The character classes the two patterns repeat. */
  datatype CharClass =
    | LetterS          // `s` under IGNORECASE
    | Space            // `\s`
    | NotQuote         // `[^'"]`
    | NotQuoteOrSpace  // `[^'"\s]`

  predicate InClass(cls: CharClass, c: char)
  {
    match cls
    case LetterS => LowerChar(c) == 's'
    case Space => IsSpace(c)
    case NotQuote => !IsQuote(c)
    case NotQuoteOrSpace => !IsQuote(c) && !IsSpace(c)
  }

  /** Where a greedy `cls*` that starts at `i` stops. */
  function RunEnd(s: string, i: nat, cls: CharClass): (e: nat)
    requires i <= |s|
    ensures i <= e <= |s|
    ensures forall j :: i <= j < e ==> InClass(cls, s[j])
    ensures e < |s| ==> !InClass(cls, s[e])
    decreases |s| - i
  {
    if i < |s| && InClass(cls, s[i]) then RunEnd(s, i + 1, cls) else i
  }

  /** The lower-case word `w` occurs at `i`, ignoring ASCII case. */
  predicate WordAt(s: string, i: nat, w: string)
  {
    i + |w| <= |s| && Lower(s[i..i + |w|]) == w
  }

  /** The index of the first alternative among `words` that occurs at `i`. */
  function FirstWordAt(s: string, i: nat, words: seq<string>): (r: Option<nat>)
    ensures r.Some? ==> r.value < |words| && WordAt(s, i, words[r.value])
    ensures r.None? ==> forall k :: 0 <= k < |words| ==> !WordAt(s, i, words[k])
  {
    if words == [] then None
    else if WordAt(s, i, words[0]) then Some(0)
    else
      match FirstWordAt(s, i, words[1..])
      case None =>
        assert forall k :: 1 <= k < |words| ==> words[k] == words[1..][k - 1];
        None
      case Some(k) => Some(k + 1)
  }

  /** A word found at `i` begins with the character found there. */
  lemma WordAtFirstChar(s: string, i: nat, w: string)
    requires w != [] && WordAt(s, i, w)
    ensures LowerChar(s[i]) == w[0]
  {
    assert Lower(s[i..i + |w|])[0] == LowerChar(s[i]);
  }

  /** `m` has `.mp3`, `.wav`, ... (any case) at `p`, after at least one
      character, followed by the end or by a `?` that opens a query. */
  predicate AudioExtensionAt(m: string, p: nat)
  {
    && 1 <= p < |m| && m[p] == '.'
    && exists k :: 0 <= k < |ExtensionWords| && WordAt(m, p + 1, ExtensionWords[k])
         && (p + 1 + |ExtensionWords[k]| == |m| || m[p + 1 + |ExtensionWords[k]|] == '?')
  }

  predicate HasAudioTail(m: string)
  {
    exists p :: 0 <= p < |m| && AudioExtensionAt(m, p)
  }

  // ---------------------------------------------------------------------
  // The attribute scan

  /** What the text between the attribute name, `=` and the quote may be.
      `AsWritten` is what the pattern on line 40 says: inside `rf"..."`,
      `\\s*` reaches `re` as `\\s*`, a backslash and then any number of
      letters `s`. `Spaces` is `\s*`, optional whitespace. */
  datatype Separator = AsWritten | Spaces

  /** Where the separator that starts at `j` ends, if one starts there. */
  function SkipSeparator(s: string, j: nat, sep: Separator): (r: Option<nat>)
    requires j <= |s|
    ensures r.Some? ==> j <= r.value <= |s|
    ensures sep == AsWritten && r.Some? ==> j < |s| && s[j] == '\\'
  {
    match sep
    case AsWritten => if j < |s| && s[j] == '\\' then Some(RunEnd(s, j + 1, LetterS)) else None
    case Spaces => Some(RunEnd(s, j, Space))
  }

  /** The text holds the captured `g` between two quotes, the closing one
      just before `e`. */
  predicate QuotedCaptureAt(s: string, g: string, e: nat)
  {
    |g| + 2 <= e <= |s| && IsQuote(s[e - |g| - 2]) && s[e - |g| - 1..e - 1] == g && IsQuote(s[e - 1])
  }

  /** The attribute pattern tried at `i`: the captured value and the end of the match. */
  function AttributeMatchAt(s: string, i: nat, sep: Separator): (r: Option<(string, nat)>)
    requires i <= |s|
    ensures r.Some? ==> i < r.value.1 <= |s|
    ensures r.Some? ==> HasAudioTail(r.value.0) && forall c :: c in r.value.0 ==> !IsQuote(c)
    ensures r.Some? ==> FirstWordAt(s, i, AttributeNames).Some?
    ensures r.Some? ==> QuotedCaptureAt(s, r.value.0, r.value.1)
    ensures sep == AsWritten && r.Some? ==> '\\' in s[i..]
  {
    match FirstWordAt(s, i, AttributeNames)
    case None => None
    case Some(w) =>
      var n := |AttributeNames[w]|;
      var r := AssignmentAt(s, i + n, sep);
      assert sep == AsWritten && r.Some? ==> s[i..][n] == s[i + n];
      r
  }

  /** The rest of the attribute pattern, `=` between separators, a quote,
      the value and the closing quote, tried at `j` just after the name. */
  function AssignmentAt(s: string, j: nat, sep: Separator): (r: Option<(string, nat)>)
    requires j <= |s|
    ensures r.Some? ==> j < r.value.1 <= |s|
    ensures r.Some? ==> HasAudioTail(r.value.0) && forall c :: c in r.value.0 ==> !IsQuote(c)
    ensures r.Some? ==> QuotedCaptureAt(s, r.value.0, r.value.1)
    ensures sep == AsWritten && r.Some? ==> j < |s| && s[j] == '\\'
  {
    match SkipSeparator(s, j, sep)
    case None => None
    case Some(a) => if a >= |s| || s[a] != '=' then None else OpeningAt(s, a + 1, sep)
  }

  /** After the `=`: a separator, the opening quote, the value and the closing quote. */
  function OpeningAt(s: string, j: nat, sep: Separator): (r: Option<(string, nat)>)
    requires j <= |s|
    ensures r.Some? ==> j < r.value.1 <= |s|
    ensures r.Some? ==> HasAudioTail(r.value.0) && forall c :: c in r.value.0 ==> !IsQuote(c)
    ensures r.Some? ==> QuotedCaptureAt(s, r.value.0, r.value.1)
  {
    match SkipSeparator(s, j, sep)
    case None => None
    case Some(b) => if b >= |s| || !IsQuote(s[b]) then None else QuotedValueAt(s, b)
  }

  /** After the opening quote at `b`: the captured run of non-quotes, which
      must carry an audio extension, and the end of the match after the
      closing quote. */
  function QuotedValueAt(s: string, b: nat): (r: Option<(string, nat)>)
    requires b < |s|
    ensures r.Some? ==> b + 1 < r.value.1 <= |s|
    ensures r.Some? ==> HasAudioTail(r.value.0) && forall c :: c in r.value.0 ==> !IsQuote(c)
    ensures r.Some? ==> r.value.1 == b + 2 + |r.value.0| && r.value.0 == s[b + 1..r.value.1 - 1]
    ensures r.Some? ==> IsQuote(s[r.value.1 - 1])
  {
    var e := RunEnd(s, b + 1, NotQuote);
    var g := s[b + 1..e];
    if e < |s| && HasAudioTail(g) then Some((g, e + 1)) else None
  }

  /** `findall` of the attribute pattern, from `i` on. */
  function AttributeScan(s: string, i: nat, sep: Separator): (ms: seq<string>)
    requires i <= |s|
    ensures forall m :: m in ms ==> HasAudioTail(m) && forall c :: c in m ==> !IsQuote(c)
    ensures forall m :: m in ms ==> exists e :: i < e <= |s| && QuotedCaptureAt(s, m, e)
    decreases |s| - i
  {
    if i == |s| then []
    else match AttributeMatchAt(s, i, sep)
      case Some((g, end)) =>
        var rest := AttributeScan(s, end, sep);
        CaptureStep(s, i, g, end, rest);
        [g] + rest
      case None => AttributeScan(s, i + 1, sep)
  }

  /** A capture quoted in the text before the captures of the rest of the scan. */
  lemma CaptureStep(s: string, i: nat, g: string, end: nat, rest: seq<string>)
    requires i < end <= |s| && QuotedCaptureAt(s, g, end)
    requires forall m :: m in rest ==> exists e :: end < e <= |s| && QuotedCaptureAt(s, m, e)
    ensures forall m :: m in [g] + rest ==> exists e :: i < e <= |s| && QuotedCaptureAt(s, m, e)
  {
    forall m | m in [g] + rest ensures exists e :: i < e <= |s| && QuotedCaptureAt(s, m, e) {
      if m != g {
        assert m in rest;
      }
    }
  }

  /** `combined.findall(html)` with the pattern as written on line 40. */
  function AttributeMatches(html: string): (ms: seq<string>)
    ensures forall m :: m in ms ==> HasAudioTail(m)
  {
    AttributeScan(html, 0, AsWritten)
  }

  /** The same scan with optional whitespace around `=`. */
  function IntendedAttributeMatches(html: string): (ms: seq<string>)
    ensures forall m :: m in ms ==> HasAudioTail(m)
  {
    AttributeScan(html, 0, Spaces)
  }

  /** As written, the attribute scan finds nothing in text without a backslash. */
  lemma {:induction false} NoBackslashNoAttributeMatch(s: string, i: nat)
    requires i <= |s|
    requires '\\' !in s[i..]
    ensures AttributeScan(s, i, AsWritten) == []
    decreases |s| - i
  {
    if i < |s| {
      assert AttributeMatchAt(s, i, AsWritten).None?;
      assert s[i + 1..] == s[i..][1..];
      NoBackslashNoAttributeMatch(s, i + 1);
    }
  }

  // ---------------------------------------------------------------------
  // The bare-URL scan

  /** A dot at `q` followed by one of the extension words. */
  predicate AudioDotAt(s: string, q: nat)
  {
    q < |s| && s[q] == '.' && FirstWordAt(s, q + 1, ExtensionWords).Some?
  }

  /** Where the extension after the audio dot at `p` ends, taking the first
      alternative of `(?:mp3|wav|...)` that occurs there. */
  function ExtensionEnd(s: string, p: nat): (e: nat)
    requires AudioDotAt(s, p)
    ensures p + 1 < e <= |s|
  {
    var x := FirstWordAt(s, p + 1, ExtensionWords).value;
    ExtensionWordFacts(x);
    p + 1 + |ExtensionWords[x]|
  }

  /** The greedy `[^'"\s]+\.(ext)` backtracks from the end of its run, so it
      settles on the last audio dot in `[lo, hi)`. */
  function LastAudioDot(s: string, lo: nat, hi: nat): (r: Option<nat>)
    requires lo <= hi <= |s|
    ensures r.Some? ==> lo <= r.value < hi && AudioDotAt(s, r.value)
    ensures r.Some? ==> forall q :: r.value < q < hi ==> !AudioDotAt(s, q)
    ensures r.None? ==> forall q :: lo <= q < hi ==> !AudioDotAt(s, q)
    decreases hi
  {
    if hi == lo then None
    else if AudioDotAt(s, hi - 1) then Some(hi - 1)
    else
      var r := LastAudioDot(s, lo, hi - 1);
      var h := hi - 1;
      NoAudioDotStep(s, if r.Some? then r.value + 1 else lo, h, hi);
      r
  }

  /** A range free of audio dots stays free when extended by a position that holds none. */
  lemma NoAudioDotStep(s: string, a: nat, h: nat, hi: nat)
    requires hi == h + 1 && !AudioDotAt(s, h)
    requires forall q :: a <= q < h ==> !AudioDotAt(s, q)
    ensures forall q :: a <= q < hi ==> !AudioDotAt(s, q)
  {
  }

  /** `p` is the last audio dot of the run of `[^'"\s]` that starts at `k`,
      with at least one character of the run before it. */
  predicate LastAudioDotOf(s: string, k: nat, p: nat)
    requires k <= |s|
  {
    var run := RunEnd(s, k, NotQuoteOrSpace);
    k < p < run && AudioDotAt(s, p) && forall q :: p < q < run ==> !AudioDotAt(s, q)
  }

  /** `https?://` tried at `i`: where the scheme and its `://` end. */
  function SchemeEnd(s: string, i: nat): (r: Option<nat>)
    requires i <= |s|
    ensures r.Some? ==> i + 7 <= r.value <= |s| && WordAt(s, i, "http") && ':' in s[i..]
    ensures r.Some? ==> (s[r.value - 3..r.value] == "://"
      && (r.value == i + 7 || (r.value == i + 8 && LowerChar(s[i + 4]) == 's')))
    ensures i + 7 <= |s| && WordAt(s, i, "http") && s[i + 4..i + 7] == "://" ==> r == Some(i + 7)
    ensures i + 8 <= |s| && WordAt(s, i, "http") && LowerChar(s[i + 4]) == 's' && s[i + 5..i + 8] == "://"
      ==> r == Some(i + 8)
  {
    if !WordAt(s, i, "http") then None
    else
      var j := if i + 4 < |s| && LowerChar(s[i + 4]) == 's' then i + 5 else i + 4;
      if j + 3 <= |s| && s[j..j + 3] == "://" then
        assert s[i..][j - i] == s[j];
        Some(j + 3)
      else None
  }

  /** The optional `(?:\?[^'"\s]+)?` tried at `t`: where it ends. */
  function QueryEnd(s: string, t: nat): (e: nat)
    requires t <= |s|
    ensures t <= e <= |s|
    ensures e == t || s[t] == '?'
    ensures t < |s| && s[t] == '?' && RunEnd(s, t + 1, NotQuoteOrSpace) > t + 1
      ==> e == RunEnd(s, t + 1, NotQuoteOrSpace)
    ensures !(t < |s| && s[t] == '?' && RunEnd(s, t + 1, NotQuoteOrSpace) > t + 1) ==> e == t
  {
    if t < |s| && s[t] == '?' then
      var e := RunEnd(s, t + 1, NotQuoteOrSpace);
      if e > t + 1 then e else t
    else t
  }

  /** `[^'"\s]+\.(ext)(?:\?[^'"\s]+)?` tried at `k`, in a match that began at
      `i`: the match ends after the last audio dot of the run and its query. */
  function UrlBodyEnd(s: string, i: nat, k: nat): (r: Option<nat>)
    requires i < k <= |s|
    ensures r.Some? ==> k < r.value <= |s| && HasAudioTail(s[i..r.value])
    ensures r.Some? ==> exists p :: LastAudioDotOf(s, k, p) && r.value == QueryEnd(s, ExtensionEnd(s, p))
    ensures r.None? ==> forall q :: k < q < RunEnd(s, k, NotQuoteOrSpace) ==> !AudioDotAt(s, q)
  {
    var run := RunEnd(s, k, NotQuoteOrSpace);
    if run <= k then None
    else
      match LastAudioDot(s, k + 1, run)
      case None => None
      case Some(p) =>
        assert LastAudioDotOf(s, k, p);
        UrlBodyTail(s, i, k, p);
        Some(QueryEnd(s, ExtensionEnd(s, p)))
  }

  /** `https?://[^'"\s]+\.(ext)(?:\?[^'"\s]+)?` tried at `i`: the end of the
      match. After the scheme, the match runs to the last audio dot of the
      following run of `[^'"\s]`, its extension, and a non-empty query if a
      `?` follows; there is no match when that run holds no audio dot. */
  function AbsoluteMatchAt(s: string, i: nat): (r: Option<nat>)
    requires i <= |s|
    ensures r.Some? ==> i < r.value <= |s|
    ensures r.Some? ==> WordAt(s, i, "http") && HasAudioTail(s[i..r.value])
    ensures r.Some? ==> ':' in s[i..]
  {
    match SchemeEnd(s, i)
    case None => None
    case Some(k) => UrlBodyEnd(s, i, k)
  }

  /** Where a bare-URL match ends: after the last audio dot of the run that
      follows the scheme, its extension and its query. A scheme whose run
      holds no audio dot starts no match. */
  lemma AbsoluteMatchExtent(s: string, i: nat)
    requires i <= |s|
    ensures AbsoluteMatchAt(s, i).Some? ==> (SchemeEnd(s, i).Some?
      && exists p :: LastAudioDotOf(s, SchemeEnd(s, i).value, p)
           && AbsoluteMatchAt(s, i).value == QueryEnd(s, ExtensionEnd(s, p)))
    ensures AbsoluteMatchAt(s, i).None? && SchemeEnd(s, i).Some? ==>
      forall q :: SchemeEnd(s, i).value < q < RunEnd(s, SchemeEnd(s, i).value, NotQuoteOrSpace) ==> !AudioDotAt(s, q)
  {
    match SchemeEnd(s, i)
    case None =>
    case Some(k) => var r := UrlBodyEnd(s, i, k);
  }

  /** The text from `i` to the end of the query after the audio dot `p`
      carries an audio extension. */
  lemma UrlBodyTail(s: string, i: nat, k: nat, p: nat)
    requires i < k <= |s| && LastAudioDotOf(s, k, p)
    ensures HasAudioTail(s[i..QueryEnd(s, ExtensionEnd(s, p))])
  {
    var x := FirstWordAt(s, p + 1, ExtensionWords).value;
    AbsoluteTail(s, i, p, x, QueryEnd(s, ExtensionEnd(s, p)));
  }

  lemma AbsoluteTail(s: string, i: nat, p: nat, x: nat, end: nat)
    requires x < |ExtensionWords| && WordAt(s, p + 1, ExtensionWords[x])
    requires i < p && p + 1 + |ExtensionWords[x]| <= end <= |s| && s[p] == '.'
    requires end == p + 1 + |ExtensionWords[x]| || s[p + 1 + |ExtensionWords[x]|] == '?'
    ensures HasAudioTail(s[i..end])
  {
    var m := s[i..end];
    var n := |ExtensionWords[x]|;
    var q := p - i;
    WordAtSlice(s, i, end, p + 1, ExtensionWords[x]);
    assert m[q] == s[p];
    assert q + 1 + n == |m| || m[q + 1 + n] == s[p + 1 + n];
    assert AudioExtensionAt(m, q);
  }

  /** A word found inside a slice is found in the slice, at the shifted position. */
  lemma WordAtSlice(s: string, lo: nat, hi: nat, at: nat, w: string)
    requires lo <= at && at + |w| <= hi <= |s| && WordAt(s, at, w)
    ensures WordAt(s[lo..hi], at - lo, w)
  {
    var sub := s[lo..hi][at - lo..at - lo + |w|];
    forall j | 0 <= j < |w| ensures sub[j] == s[at..at + |w|][j] {
      assert sub[j] == s[at + j];
    }
    assert sub == s[at..at + |w|];
  }

  /** The extension words are lower case, at least three characters long, and
      hold no dot, quote or whitespace. */
  lemma ExtensionWordFacts(x: nat)
    requires x < |ExtensionWords|
    ensures |ExtensionWords[x]| >= 3
    ensures Lower(ExtensionWords[x]) == ExtensionWords[x]
    ensures forall c :: c in ExtensionWords[x] ==> c != '.' && !IsQuote(c) && !IsSpace(c)
  {
    var w := ExtensionWords[x];
    assert forall j :: 0 <= j < |w| ==> ('a' <= w[j] <= 'z' || '0' <= w[j] <= '9');
    assert Lower(w) == w;
  }

  /** The alternation `(?:mp3|wav|ogg|flac|aac|m4a)` is unambiguous: no two of
      its words occur at the same place. */
  lemma ExtensionWordUnique(s: string, q: nat, x: nat, y: nat)
    requires x < |ExtensionWords| && y < |ExtensionWords|
    requires WordAt(s, q, ExtensionWords[x]) && WordAt(s, q, ExtensionWords[y])
    ensures x == y
  {
    ExtensionWordFacts(x);
    ExtensionWordFacts(y);
    assert Lower(s[q..q + |ExtensionWords[x]|])[0] == LowerChar(s[q]);
    assert Lower(s[q..q + |ExtensionWords[y]|])[0] == LowerChar(s[q]);
    assert Lower(s[q..q + |ExtensionWords[x]|])[1] == LowerChar(s[q + 1]);
    assert Lower(s[q..q + |ExtensionWords[y]|])[1] == LowerChar(s[q + 1]);
    assert ExtensionWords[x][..2] == ExtensionWords[y][..2];
  }

  /** A greedy run stops exactly where the class first fails. */
  lemma {:induction false} RunEndAt(s: string, i: nat, e: nat, cls: CharClass)
    requires i <= e <= |s|
    requires forall j :: i <= j < e ==> InClass(cls, s[j])
    requires e == |s| || !InClass(cls, s[e])
    ensures RunEnd(s, i, cls) == e
    decreases e - i
  {
    if i < e {
      RunEndAt(s, i + 1, e, cls);
    }
  }

  /** The bare URL `http://body.ext` followed by `query`. */
  function Url(body: string, x: nat, query: string): (u: string)
    requires x < |ExtensionWords|
    ensures |u| == 8 + |body| + |ExtensionWords[x]| + |query|
  {
    "http://" + body + "." + ExtensionWords[x] + query
  }

  /** The parts of a bare URL that the pattern demands: a non-empty body and
      an empty or non-empty `?query`, none of it a quote or whitespace. */
  predicate UrlShape(body: string, x: nat, query: string)
  {
    && x < |ExtensionWords| && body != []
    && (forall c :: c in body ==> !IsQuote(c) && !IsSpace(c))
    && (forall c :: c in query ==> !IsQuote(c) && !IsSpace(c))
    && (query == [] || (query[0] == '?' && |query| >= 2))
  }

  /** Completeness of the bare-URL scan: where `s` holds the URL
      `http://body.ext` followed by `query` from `i` to `e`, and then the end,
      a quote or whitespace, the match at `i` is the whole URL, query
      included, as long as the query has no audio dot of its own. */
  lemma BareUrlMatched(s: string, i: nat, e: nat, body: string, x: nat, query: string)
    requires UrlShape(body, x, query)
    requires e == i + |Url(body, x, query)| && e <= |s| && s[i..e] == Url(body, x, query)
    requires e == |s| || IsQuote(s[e]) || IsSpace(s[e])
    requires forall q :: i + 8 + |body| + |ExtensionWords[x]| <= q < e ==> !AudioDotAt(s, q)
    ensures AbsoluteMatchAt(s, i) == Some(e)
  {
    var u := Url(body, x, query);
    UrlParts(body, x, query);
    UrlChars(body, x, query);
    UrlExtensionChars(body, x, query);
    UrlMatched(s, i, u, 7 + |body|, x, e);
  }

  /** The same over any `u` with the parts of a URL: `http://`, a run free
      of quotes and whitespace, an audio dot at `d` with the extension word
      `x` after it, and an empty or non-empty `?query` that runs to the end
      of `u`. */
  lemma UrlMatched(s: string, i: nat, u: string, d: nat, x: nat, e: nat)
    requires e == i + |u| && e <= |s| && s[i..e] == u
    requires e == |s| || IsQuote(s[e]) || IsSpace(s[e])
    requires |u| >= 7 && u[..7] == "http://"
    requires forall j :: 7 <= j < |u| ==> InClass(NotQuoteOrSpace, u[j])
    requires x < |ExtensionWords| && 7 < d && d + 1 + |ExtensionWords[x]| <= |u|
    requires u[d] == '.' && u[d + 1..d + 1 + |ExtensionWords[x]|] == ExtensionWords[x]
    requires forall j :: d < j < d + 1 + |ExtensionWords[x]| ==> u[j] != '.'
    requires forall q :: i + d + 1 + |ExtensionWords[x]| <= q < e ==> !AudioDotAt(s, q)
    requires var t := d + 1 + |ExtensionWords[x]|; t == |u| || (u[t] == '?' && t + 2 <= |u|)
    ensures AbsoluteMatchAt(s, i) == Some(e)
  {
    var k, p := i + 7, i + d;
    var t := p + 1 + |ExtensionWords[x]|;
    SchemeAt(s, i, u, k);
    RunOver(s, i, u, k, e);
    DotAt(s, i, u, d, x, p, t);
    NoDotAfter(s, i, u, d, x, p, e);
    QueryAt(s, i, u, t - i, t, e);
    AbsoluteMatchOfParts(s, i, k, p, t, e);
  }

  /** The pieces of a bare-URL match at `i`: its scheme ends at `k`, the run
      after it ends at `e`, `p` is the run's last audio dot, and the query
      after `p`'s extension, which ends at `t`, runs to `e`. */
  predicate MatchParts(s: string, i: nat, k: nat, p: nat, t: nat, e: nat)
  {
    && i < k <= |s| && SchemeEnd(s, i) == Some(k)
    && RunEnd(s, k, NotQuoteOrSpace) == e && k < p < e
    && AudioDotAt(s, p) && ExtensionEnd(s, p) == t
    && (forall q :: p < q < e ==> !AudioDotAt(s, q))
    && QueryEnd(s, t) == e
  }

  /** A bare-URL match with these pieces ends at `e`. */
  lemma AbsoluteMatchOfParts(s: string, i: nat, k: nat, p: nat, t: nat, e: nat)
    requires MatchParts(s, i, k, p, t, e)
    ensures AbsoluteMatchAt(s, i) == Some(e)
  {
    UrlBodyEndAt(s, i, k, p);
  }

  /** When `p` is the last audio dot of the run after the scheme, the body
      of the match ends where the query after `p`'s extension ends. */
  lemma UrlBodyEndAt(s: string, i: nat, k: nat, p: nat)
    requires i < k <= |s|
    requires k < p < RunEnd(s, k, NotQuoteOrSpace) && AudioDotAt(s, p)
    requires forall q :: p < q < RunEnd(s, k, NotQuoteOrSpace) ==> !AudioDotAt(s, q)
    ensures UrlBodyEnd(s, i, k) == Some(QueryEnd(s, ExtensionEnd(s, p)))
  {
    var run := RunEnd(s, k, NotQuoteOrSpace);
    var r := LastAudioDot(s, k + 1, run);
    assert r == Some(p);
  }

  /** Where the pieces of a URL sit in it. */
  lemma UrlParts(body: string, x: nat, query: string)
    requires x < |ExtensionWords|
    ensures var u := Url(body, x, query); var w := ExtensionWords[x];
      && u[..7] == "http://"
      && (forall j :: 0 <= j < |body| ==> u[7 + j] == body[j])
      && u[7 + |body|] == '.'
      && u[8 + |body|..8 + |body| + |w|] == w
      && (forall j :: 0 <= j < |w| ==> u[8 + |body| + j] == w[j])
      && (forall j :: 0 <= j < |query| ==> u[8 + |body| + |w| + j] == query[j])
  {
  }

  /** No character of a URL after its scheme is a quote or whitespace. */
  lemma UrlChars(body: string, x: nat, query: string)
    requires x < |ExtensionWords|
    requires forall c :: c in body ==> !IsQuote(c) && !IsSpace(c)
    requires forall c :: c in query ==> !IsQuote(c) && !IsSpace(c)
    ensures var u := Url(body, x, query);
      forall j :: 7 <= j < |u| ==> InClass(NotQuoteOrSpace, u[j])
  {
    var u := Url(body, x, query);
    var w := ExtensionWords[x];
    var p := 7 + |body|;
    var t := p + 1 + |w|;
    UrlParts(body, x, query);
    ExtensionWordFacts(x);
    forall j | 7 <= j < |u| ensures InClass(NotQuoteOrSpace, u[j]) {
      if j < p {
        assert u[j] in body;
      } else if j == p {
      } else if j < t {
        assert u[j] == w[j - p - 1];
        assert u[j] in w;
      } else {
        assert u[j] == query[j - t];
        assert u[j] in query;
      }
    }
  }

  /** No character of a URL's extension is a dot. */
  lemma UrlExtensionChars(body: string, x: nat, query: string)
    requires x < |ExtensionWords|
    ensures var u := Url(body, x, query); var d := 7 + |body|;
      forall j :: d < j < d + 1 + |ExtensionWords[x]| ==> u[j] != '.'
  {
    var u := Url(body, x, query);
    var w := ExtensionWords[x];
    var p := 7 + |body|;
    UrlParts(body, x, query);
    ExtensionWordFacts(x);
    forall j | p < j < p + 1 + |w| ensures u[j] != '.' {
      assert u[j] == w[j - p - 1];
      assert u[j] in w;
    }
  }

  /** The run has no audio dot after the one at `p`: none in the extension,
      which holds no dot, and none in the query, by hypothesis. */
  lemma NoDotAfter(s: string, i: nat, u: string, d: nat, x: nat, p: nat, e: nat)
    requires e == i + |u| && e <= |s| && s[i..e] == u && p == i + d
    requires x < |ExtensionWords| && d + 1 + |ExtensionWords[x]| <= |u|
    requires forall j :: d < j < d + 1 + |ExtensionWords[x]| ==> u[j] != '.'
    requires forall q :: i + d + 1 + |ExtensionWords[x]| <= q < e ==> !AudioDotAt(s, q)
    ensures forall q :: p < q < e ==> !AudioDotAt(s, q)
  {
    forall q | p < q < e ensures !AudioDotAt(s, q) {
      if q < p + 1 + |ExtensionWords[x]| {
        assert s[q] == u[q - i];
      }
    }
  }

  lemma SchemeAt(s: string, i: nat, u: string, k: nat)
    requires i + |u| <= |s| && s[i..i + |u|] == u && k == i + 7
    requires |u| >= 7 && u[..7] == "http://"
    ensures SchemeEnd(s, i) == Some(k)
  {
    assert s[i..i + 7] == u[..7];
    assert s[i..i + 4] == u[..7][..4];
    assert s[i + 4..i + 7] == u[..7][4..];
  }

  /** The run of `[^'"\s]` after the scheme covers the whole URL. */
  lemma RunOver(s: string, i: nat, u: string, k: nat, e: nat)
    requires e == i + |u| && e <= |s| && s[i..e] == u && |u| >= 7 && k == i + 7
    requires e == |s| || IsQuote(s[e]) || IsSpace(s[e])
    requires forall j :: 7 <= j < |u| ==> InClass(NotQuoteOrSpace, u[j])
    ensures RunEnd(s, k, NotQuoteOrSpace) == e
  {
    forall j | k <= j < e ensures InClass(NotQuoteOrSpace, s[j]) {
      assert s[j] == u[j - i];
    }
    RunEndAt(s, k, e, NotQuoteOrSpace);
  }

  /** The dot and extension word that `u` holds at `d` sit in `s` at `p`. */
  lemma DotAt(s: string, i: nat, u: string, d: nat, x: nat, p: nat, t: nat)
    requires i + |u| <= |s| && s[i..i + |u|] == u
    requires x < |ExtensionWords| && d + 1 + |ExtensionWords[x]| <= |u|
    requires p == i + d && t == p + 1 + |ExtensionWords[x]|
    requires u[d] == '.' && u[d + 1..d + 1 + |ExtensionWords[x]|] == ExtensionWords[x]
    ensures AudioDotAt(s, p)
    ensures ExtensionEnd(s, p) == t
  {
    assert s[p] == u[d];
    SliceOfSlice(s, i, i + |u|, d + 1, d + 1 + |ExtensionWords[x]|);
    ExtensionAt(s, p, x, t);
  }

  /** A dot followed by an extension word is an audio dot, and the extension
      that follows it is that word. */
  lemma ExtensionAt(s: string, p: nat, x: nat, t: nat)
    requires x < |ExtensionWords| && t == p + 1 + |ExtensionWords[x]| <= |s|
    requires s[p] == '.' && s[p + 1..t] == ExtensionWords[x]
    ensures AudioDotAt(s, p)
    ensures ExtensionEnd(s, p) == t
  {
    ExtensionWordFacts(x);
    assert WordAt(s, p + 1, ExtensionWords[x]);
    var y := FirstWordAt(s, p + 1, ExtensionWords).value;
    ExtensionWordUnique(s, p + 1, x, y);
  }

  lemma SliceOfSlice(s: string, lo: nat, hi: nat, a: nat, b: nat)
    requires lo <= hi <= |s| && a <= b <= hi - lo
    ensures s[lo..hi][a..b] == s[lo + a..lo + b]
  {
    forall j | 0 <= j < b - a ensures s[lo..hi][a..b][j] == s[lo + a..lo + b][j] {
      assert s[lo..hi][a..b][j] == s[lo + a + j];
    }
  }

  /** A non-empty query that runs to a quote, whitespace or the end is taken whole. */
  lemma QueryAt(s: string, i: nat, u: string, c: nat, t: nat, e: nat)
    requires e == i + |u| && e <= |s| && s[i..e] == u && c <= |u| && t == i + c
    requires e == |s| || IsQuote(s[e]) || IsSpace(s[e])
    requires forall j :: c < j < |u| ==> InClass(NotQuoteOrSpace, u[j])
    requires c == |u| || (u[c] == '?' && c + 2 <= |u|)
    ensures QueryEnd(s, t) == e
  {
    if c < |u| {
      assert s[t] == u[c];
      forall j | t + 1 <= j < e ensures InClass(NotQuoteOrSpace, s[j]) {
        assert s[j] == u[j - i];
      }
      RunEndAt(s, t + 1, e, NotQuoteOrSpace);
    }
  }

  /** `findall` of the bare-URL pattern, from `i` on. */
  function AbsoluteScan(s: string, i: nat): (ms: seq<string>)
    requires i <= |s|
    ensures forall m :: m in ms ==> HasAudioTail(m) && WordAt(m, 0, "http")
    decreases |s| - i
  {
    if i == |s| then []
    else match AbsoluteMatchAt(s, i)
      case Some(end) =>
        assert s[i..end][0..4] == s[i..i + 4];
        [s[i..end]] + AbsoluteScan(s, end)
      case None => AbsoluteScan(s, i + 1)
  }

  /** `absolute.findall(html)` */
  function AbsoluteMatches(html: string): (ms: seq<string>)
    ensures forall m :: m in ms ==> HasAudioTail(m) && WordAt(m, 0, "http")
  {
    AbsoluteScan(html, 0)
  }

  /** The bare-URL scan finds nothing in text without a colon. */
  lemma {:induction false} NoColonNoAbsoluteMatch(s: string, i: nat)
    requires i <= |s|
    requires ':' !in s[i..]
    ensures AbsoluteScan(s, i) == []
    decreases |s| - i
  {
    if i < |s| {
      assert AbsoluteMatchAt(s, i).None?;
      assert s[i + 1..] == s[i..][1..];
      NoColonNoAbsoluteMatch(s, i + 1);
    }
  }

  /** Empty page text yields no match from either scan. */
  lemma EmptyPageNoMatches(sep: Separator)
    ensures AttributeScan("", 0, sep) == [] && AbsoluteMatches("") == []
  {
  }

  // ---------------------------------------------------------------------
  // The anchor `<a href="move.mp3">`

  const Anchor: string := "<a href=\"move.mp3\">"

  /** As written, neither scan finds `move.mp3` in the anchor. */
  lemma AnchorMissedAsWritten()
    ensures AttributeMatches(Anchor) == []
    ensures AbsoluteMatches(Anchor) == []
  {
    assert Anchor[0..] == Anchor;
    assert '\\' !in Anchor && ':' !in Anchor;
    NoBackslashNoAttributeMatch(Anchor, 0);
    NoColonNoAbsoluteMatch(Anchor, 0);
  }

  /** No attribute match starts at a character that starts no attribute name. */
  lemma NoAttributeMatchAt(s: string, i: nat, sep: Separator)
    requires i < |s| && LowerChar(s[i]) != 'h' && LowerChar(s[i]) != 's' && LowerChar(s[i]) != 'd'
    ensures AttributeMatchAt(s, i, sep) == None
  {
    match FirstWordAt(s, i, AttributeNames)
    case None =>
    case Some(k) => WordAtFirstChar(s, i, AttributeNames[k]);
  }

  /** With whitespace around `=`, `href="v"` from `i` to `e` is matched and
      captures `v` whenever `v` is free of quotes and carries an audio
      extension. */
  lemma QuotedHrefMatched(s: string, i: nat, e: nat, v: string)
    requires e == i + 7 + |v| && e <= |s| && s[i..e] == "href=\"" + v + "\""
    requires forall c :: c in v ==> !IsQuote(c)
    requires HasAudioTail(v)
    ensures AttributeMatchAt(s, i, Spaces) == Some((v, e))
  {
    var j, b := i + 4, i + 5;
    HrefParts(s, i, j, b, e, v);
    HrefMatchedAt(s, i, j, b, v, e);
  }

  /** A value the attribute pattern can capture: quote-free, with an audio extension. */
  predicate Capturable(v: string)
  {
    (forall c :: c in v ==> !IsQuote(c)) && HasAudioTail(v)
  }

  /** `"v"` runs from `b` to `e`. */
  predicate QuotedAt(s: string, b: nat, v: string, e: nat)
  {
    e == b + 2 + |v| && e <= |s| && s[b] == '"' && s[b + 1..e - 1] == v && s[e - 1] == '"'
  }

  /** Where the pieces of `href="v"` sit when it runs from `i` to `e`. */
  lemma HrefParts(s: string, i: nat, j: nat, b: nat, e: nat, v: string)
    requires j == i + 4 && b == i + 5
    requires e == i + 7 + |v| && e <= |s| && s[i..e] == "href=\"" + v + "\""
    ensures s[i..j] == "href" && s[j] == '=' && QuotedAt(s, b, v, e)
  {
    var h := "href=\"" + v + "\"";
    assert s[j] == h[4] && s[b] == h[5] && s[e - 1] == h[|h| - 1];
    SliceOfSlice(s, i, e, 0, 4);
    SliceOfSlice(s, i, e, 6, 6 + |v|);
    assert h[..4] == "href" && h[6..6 + |v|] == v;
  }

  /** `href="v"` from `i` to `e` is an attribute match that captures `v`. */
  lemma HrefMatchedAt(s: string, i: nat, j: nat, b: nat, v: string, e: nat)
    requires j == i + 4 && b == j + 1 && j < |s|
    requires s[i..j] == "href" && s[j] == '=' && QuotedAt(s, b, v, e) && Capturable(v)
    ensures AttributeMatchAt(s, i, Spaces) == Some((v, e))
  {
    assert WordAt(s, i, AttributeNames[0]);
    assert FirstWordAt(s, i, AttributeNames) == Some(0);
    HrefNameStep(s, i, j, Spaces);
    HrefAssignment(s, j, b, v, e);
  }

  /** After the name `href` found at `i`, the rest of the match is what
      follows the name at `j`. */
  lemma HrefNameStep(s: string, i: nat, j: nat, sep: Separator)
    requires i <= |s| && FirstWordAt(s, i, AttributeNames) == Some(0)
    requires j == i + 4
    ensures AttributeMatchAt(s, i, sep) == AssignmentAt(s, j, sep)
  {
  }

  /** `="v"` from `j` to `e` is the rest of an attribute match that captures `v`. */
  lemma HrefAssignment(s: string, j: nat, b: nat, v: string, e: nat)
    requires b == j + 1 && j < |s| && s[j] == '=' && QuotedAt(s, b, v, e) && Capturable(v)
    ensures AssignmentAt(s, j, Spaces) == Some((v, e))
  {
    assert RunEnd(s, j, Space) == j;
    AssignmentStep(s, j, j, b, Spaces);
    HrefOpening(s, b, v, e);
  }

  /** An `=` at `a`, after the separator from `j`: the rest of the match is
      what follows the `=` at `b`. */
  lemma AssignmentStep(s: string, j: nat, a: nat, b: nat, sep: Separator)
    requires j <= |s| && SkipSeparator(s, j, sep) == Some(a)
    requires a < |s| && s[a] == '=' && b == a + 1
    ensures AssignmentAt(s, j, sep) == OpeningAt(s, b, sep)
  {
  }

  /** `"v"` from `b` to `e`, after the `=`, is matched and captures `v`. */
  lemma HrefOpening(s: string, b: nat, v: string, e: nat)
    requires QuotedAt(s, b, v, e) && Capturable(v)
    ensures OpeningAt(s, b, Spaces) == Some((v, e))
  {
    assert RunEnd(s, b, Space) == b;
    var c := e - 1;
    HrefQuoted(s, b, c, v, e);
  }

  /** After the quote at `b`, `v"` ending at `e` is the capture `v`. */
  lemma HrefQuoted(s: string, b: nat, c: nat, v: string, e: nat)
    requires c + 1 == e && QuotedAt(s, b, v, e) && Capturable(v)
    ensures QuotedValueAt(s, b) == Some((v, e))
  {
    QuotedValue(s, b, c, v);
  }

  /** A quote-free `v` after the quote at `b`, closed by a quote at `c`, is the
      run of `[^'"]` there. */
  lemma QuotedValue(s: string, b: nat, c: nat, v: string)
    requires b < c < |s| && s[b + 1..c] == v && IsQuote(s[c])
    requires forall ch :: ch in v ==> !IsQuote(ch)
    ensures RunEnd(s, b + 1, NotQuote) == c
  {
    forall j | b + 1 <= j < c ensures InClass(NotQuote, s[j]) {
      assert s[j] == v[j - b - 1];
    }
    RunEndAt(s, b + 1, c, NotQuote);
  }

  /** With whitespace around `=`, the attribute scan finds exactly `move.mp3`. */
  lemma AnchorFoundWithSpaces()
    ensures IntendedAttributeMatches(Anchor) == ["move.mp3"]
  {
    AnchorHref();
    AnchorOtherPositions();
    assert AttributeScan(Anchor, 18, Spaces) == [];
    assert AttributeScan(Anchor, 3, Spaces) == ["move.mp3"];
    assert AttributeScan(Anchor, 2, Spaces) == ["move.mp3"];
    assert AttributeScan(Anchor, 1, Spaces) == ["move.mp3"];
  }

  /** The `href` of the anchor is matched at its `h` and captures `move.mp3`. */
  lemma AnchorHref()
    ensures AttributeMatchAt(Anchor, 3, Spaces) == Some(("move.mp3", 18))
  {
    MoveHasAudioTail();
    AnchorSplit();
    QuotedHrefMatched(Anchor, 3, 18, "move.mp3");
  }

  lemma MoveHasAudioTail()
    ensures HasAudioTail("move.mp3")
  {
    var v := "move.mp3";
    assert v[5..8] == "mp3";
    assert WordAt(v, 5, ExtensionWords[0]);
    assert AudioExtensionAt(v, 4);
  }

  lemma AnchorSplit()
    ensures Anchor[3..18] == "href=\"" + "move.mp3" + "\""
  {
  }

  /** The characters of the anchor other than `href`'s `h` start no match. */
  lemma AnchorOtherPositions()
    ensures forall j :: j in {0, 1, 2, 18} ==> AttributeMatchAt(Anchor, j, Spaces) == None
  {
    assert Anchor[0] == '<' && Anchor[1] == 'a' && Anchor[2] == ' ' && Anchor[18] == '>';
    NoAttributeMatchAt(Anchor, 0, Spaces);
    NoAttributeMatchAt(Anchor, 1, Spaces);
    NoAttributeMatchAt(Anchor, 2, Spaces);
    NoAttributeMatchAt(Anchor, 18, Spaces);
  }
}
