/**
 * The translate plugin's `get_matches`: the prefix gate, the three fixed
 * translation requests, the decoding of each response into a match, and the
 * assembly of the ordered list of matches capped at `max_entries`.
 *
 * The network is not modelled: the caller supplies, per request and in request
 * order, the parsed JSON body, or None when sending the request or reading its
 * body as JSON failed. A panic (`expect` or an out-of-range `Vec` index) is a
 * value, `Panicked`, so that it stays visible instead of becoming a skip.
 */
module Translate {
  import opened Wrappers
  import opened Json
  import opened Strings
  import Utf8
  import QueryString

  /** The plugin's settings from `translate.ron`; `max_entries` is a `usize`. */
  datatype Config = Config(prefix: string, maxEntries: nat)

  /** The settings used when `translate.ron` is missing or does not parse. */
  function DefaultConfig(): (c: Config)
    ensures c.prefix == [] && c.maxEntries == 3
  {
    Config("", 3)
  }

  /** A result row. `use_pango`, `icon` and `id` are constants and left out; the description is always present. */
  datatype Match = Match(title: string, description: string)

  /** The two ways `get_matches` can panic while decoding a response. */
  datatype Panic =
    | MalformedJson     // `expect("Malformed JSON!")` on a value of the wrong kind
    | IndexOutOfBounds  // `[0]` on an empty segment array

  /** The outcome of code that may panic. */
  datatype Decoded<T> = Ok(value: T) | Panicked(panic: Panic)

  // ---------------------------------------------------------------------------
  // The prefix gate
  // ---------------------------------------------------------------------------

  /**
   * The text to translate: `input` without the configured prefix, or None when
   * `input` does not start with the prefix or nothing follows it. Only emptiness
   * is tested: a remainder of blanks is translated.
   */
  function Remainder(config: Config, input: string): (r: Option<string>)
    ensures r.Some? <==> config.prefix <= input && |config.prefix| < |input|
    ensures r.Some? ==> config.prefix + r.value == input
  {
    if !(config.prefix <= input) then None
    else
      var text := input[|config.prefix|..];
      assert config.prefix + text == input;
      if text == [] then None else Some(text)
  }

  /**
   * The gate reads the same on bytes as on characters: Rust's `starts_with` and
   * `&input[prefix.len()..]` compare and slice UTF-8 bytes, and they accept
   * exactly the inputs `Remainder` accepts, leaving the bytes of its text.
   */
  lemma RemainderIsByteSlice(config: Config, input: string)
    ensures Remainder(config, input).Some? <==>
      Utf8.Encode(config.prefix) <= Utf8.Encode(input)
      && |Utf8.Encode(config.prefix)| < |Utf8.Encode(input)|
    ensures Remainder(config, input).Some? ==>
      Utf8.Encode(Remainder(config, input).value)
        == Utf8.Encode(input)[|Utf8.Encode(config.prefix)|..]
  {
    Utf8.BytePrefixIsCharPrefix(config.prefix, input);
    if config.prefix <= input {
      Utf8.ByteSliceIsCharSlice(config.prefix, input);
      Utf8.EncodeEmpty(input[|config.prefix|..]);
    }
  }

  /** With the default settings every non-empty input is translated as it is. */
  lemma DefaultConfigTranslatesWholeInput(input: string)
    ensures Remainder(DefaultConfig(), input) == if input == [] then None else Some(input)
  {
    if input != [] {
      assert DefaultConfig().prefix + input == input;
    }
  }

  /**
   * The default `max_entries` is the number of requests, so with the default
   * settings nothing is ever cut: every match that is reached is returned.
   */
  lemma DefaultConfigKeepsEveryMatch(input: string, outcomes: seq<Option<Json>>)
    requires |outcomes| == |Requests| && input != []
    requires GetMatches(DefaultConfig(), input, outcomes).Ok?
    ensures GetMatches(DefaultConfig(), input, outcomes).value == Emitted(Steps(Requests, outcomes))
  {
    DefaultConfigTranslatesWholeInput(input);
    GetMatchesSpec(DefaultConfig(), input, outcomes);
    EmittedLength(Steps(Requests, outcomes));
  }

  // ---------------------------------------------------------------------------
  // The requests
  // ---------------------------------------------------------------------------

  const EnglishToUkrainian: string := "English \U{2192} Ukrainian"
  const UkrainianToEnglish: string := "Ukrainian \U{2192} English"
  const AutoDetect: string := "Auto-detect"
  /** `https://translate.googleapis.com/translate_a/single`, written in pieces for the lemmas below. */
  const Endpoint: string := "https://" + "translate." + "googleapis" + ".com/" + "translate_a" + "/single"

  /** One translation request: its name (shown as a label) and its source and target language codes. */
  datatype Request = Request(name: string, sl: string, tl: string)

  /** The three requests, always all of them and always in this order. */
  const Requests: seq<Request> := [
    Request(EnglishToUkrainian, "en", "uk"),
    Request(UkrainianToEnglish, "uk", "en"),
    Request(AutoDetect, "auto", "auto")
  ]

  /** The URL of `req` for `text`; the text is spliced in as it is, without escaping. */
  function Url(req: Request, text: string): (url: string)
    ensures url == Endpoint + "?" + JoinWith(QueryPairs(req, text), '&')
  {
    JoinedPairs(req, text);
    Endpoint + "?client=gtx&sl=" + req.sl + "&tl=" + req.tl + "&dt=t&q=" + text
  }

  /** The URLs requested for `input`, in dispatch order; none when the gate rejects it. */
  function Dispatched(config: Config, input: string): (urls: seq<string>)
    ensures urls == [] <==> Remainder(config, input).None?
    ensures urls != [] ==> |urls| == |Requests|
    ensures urls != [] ==>
      forall i :: 0 <= i < |Requests| ==> urls[i] == Url(Requests[i], Remainder(config, input).value)
  {
    match Remainder(config, input)
    case None => []
    case Some(text) => seq(|Requests|, i requires 0 <= i < |Requests| => Url(Requests[i], text))
  }

  /** The endpoint holds no `?`, so the query string starts where the URL puts it. */
  lemma EndpointHasNoQuery()
    ensures '?' !in Endpoint
  {
    assert '?' !in "https://";
    assert '?' !in "translate.";
    assert '?' !in "googleapis";
    assert '?' !in ".com/";
    assert '?' !in "translate_a";
    assert '?' !in "/single";
  }

  /** A language code that needs no escaping in a query string. */
  predicate PlainCode(code: string)
  {
    '&' !in code && '#' !in code
  }

  /** The `key=value` pairs of a request's query string, in the order the URL lists them. */
  function QueryPairs(req: Request, text: string): seq<string>
  {
    ["client=gtx", "sl=" + req.sl, "tl=" + req.tl, "dt=t", "q=" + text]
  }

  /** The query string of a request URL is its pairs joined with `&`. */
  lemma UrlQuery(req: Request, text: string)
    requires '#' !in req.sl && '#' !in req.tl && '#' !in text
    ensures QueryString.QueryOf(Url(req, text)) == JoinWith(QueryPairs(req, text), '&')
  {
    var query := JoinWith(QueryPairs(req, text), '&');
    JoinedPairs(req, text);
    assert Url(req, text) == Endpoint + "?" + query;
    EndpointHasNoQuery();
    assert '#' !in "client=gtx&sl=" && '#' !in "&tl=" && '#' !in "&dt=t&q=";
    QueryString.QueryOfPlainUrl(Endpoint, query);
  }

  /** The pairs joined with `&` spell out the query string the URL is built with. */
  lemma JoinedPairs(req: Request, text: string)
    ensures JoinWith(QueryPairs(req, text), '&') == "client=gtx&sl=" + req.sl + "&tl=" + req.tl + "&dt=t&q=" + text
  {
    var ps := QueryPairs(req, text);
    assert JoinWith(ps[3..], '&') == ps[3] + ['&'] + ps[4];
    assert JoinWith(ps[2..], '&') == ps[2] + ['&'] + JoinWith(ps[3..], '&');
    assert JoinWith(ps[1..], '&') == ps[1] + ['&'] + JoinWith(ps[2..], '&');
    assert JoinWith(ps, '&') == ps[0] + ['&'] + JoinWith(ps[1..], '&');
  }

  /** Looking a key up in a request's pairs finds its codes and text, whatever pairs follow them. */
  lemma LookupInPairs(req: Request, text: string, rest: seq<string>)
    ensures QueryString.Lookup(QueryPairs(req, text) + rest, "sl") == Some(req.sl)
    ensures QueryString.Lookup(QueryPairs(req, text) + rest, "tl") == Some(req.tl)
    ensures QueryString.Lookup(QueryPairs(req, text) + rest, "q") == Some(text)
  {
    var pairs := QueryPairs(req, text) + rest;
    LookupSl(req.sl, pairs);
    LookupTl(req.sl, req.tl, pairs);
    LookupQ(req.sl, req.tl, text, pairs);
  }

  lemma LookupSl(sl: string, pairs: seq<string>)
    requires |pairs| >= 2 && pairs[0] == "client=gtx" && pairs[1] == "sl=" + sl
    ensures QueryString.Lookup(pairs, "sl") == Some(sl)
  {
    QueryString.LookupSkips(pairs, "sl");
    assert "sl" + "=" == "sl=";
    assert pairs[1..] == ["sl" + "=" + sl] + pairs[2..];
    QueryString.LookupFinds("sl", sl, pairs[2..]);
  }

  lemma LookupTl(sl: string, tl: string, pairs: seq<string>)
    requires |pairs| >= 3 && pairs[0] == "client=gtx" && pairs[1] == "sl=" + sl && pairs[2] == "tl=" + tl
    ensures QueryString.Lookup(pairs, "tl") == Some(tl)
  {
    QueryString.LookupSkips(pairs, "tl");
    QueryString.LookupSkips(pairs[1..], "tl");
    assert "tl" + "=" == "tl=";
    assert pairs[2..] == ["tl" + "=" + tl] + pairs[3..];
    QueryString.LookupFinds("tl", tl, pairs[3..]);
  }

  lemma LookupQ(sl: string, tl: string, text: string, pairs: seq<string>)
    requires |pairs| >= 5 && pairs[0] == "client=gtx" && pairs[1] == "sl=" + sl && pairs[2] == "tl=" + tl
    requires pairs[3] == "dt=t" && pairs[4] == "q=" + text
    ensures QueryString.Lookup(pairs, "q") == Some(text)
  {
    QueryString.LookupSkips(pairs, "q");
    QueryString.LookupSkips(pairs[1..], "q");
    QueryString.LookupSkips(pairs[2..], "q");
    QueryString.LookupSkips(pairs[3..], "q");
    assert "q" + "=" == "q=";
    assert pairs[4..] == ["q" + "=" + text] + pairs[5..];
    QueryString.LookupFinds("q", text, pairs[5..]);
  }

  /**
   * What the query reader reads from a request URL: its source and target codes and
   * the text, as long as the text holds no `&` or `#` (which the URL does not escape).
   */
  lemma UrlCarriesRequest(req: Request, text: string)
    requires PlainCode(req.sl) && PlainCode(req.tl)
    requires '&' !in text && '#' !in text
    ensures QueryString.Param(Url(req, text), "sl") == Some(req.sl)
    ensures QueryString.Param(Url(req, text), "tl") == Some(req.tl)
    ensures QueryString.Param(Url(req, text), "q") == Some(text)
  {
    UrlQuery(req, text);
    var ps := QueryPairs(req, text);
    PairsHaveNoAmpersand(req, text);
    SplitJoin(ps, '&');
    LookupInPairs(req, text, []);
    assert ps + [] == ps;
  }

  /** With an `&` in the text, the query string splits into the pairs for the text before it, then the pieces after it. */
  lemma AmpersandSplitsQuery(req: Request, a: string, b: string)
    requires PlainCode(req.sl) && PlainCode(req.tl)
    requires '&' !in a && '#' !in a && '#' !in b
    ensures SplitOn(JoinWith(QueryPairs(req, a + "&" + b), '&'), '&') == QueryPairs(req, a) + SplitOn(b, '&')
  {
    assert a + ("&" + b) == a + "&" + b;
    JoinedPairsExtend(req, a, "&" + b);
    var joined := JoinWith(QueryPairs(req, a), '&');
    assert joined + ("&" + b) == joined + ['&'] + b;
    PairsHaveNoAmpersand(req, a);
    SplitJoinThen(QueryPairs(req, a), '&', b);
  }

  /** Extending the text extends the joined query string by the same characters. */
  lemma JoinedPairsExtend(req: Request, text: string, more: string)
    ensures JoinWith(QueryPairs(req, text + more), '&') == JoinWith(QueryPairs(req, text), '&') + more
  {
    QueryPairsExtend(req, text, more);
    JoinExtendLast(QueryPairs(req, text), '&', more);
  }

  /** No pair holds an `&` when neither the codes nor the text do. */
  lemma PairsHaveNoAmpersand(req: Request, text: string)
    requires PlainCode(req.sl) && PlainCode(req.tl) && '&' !in text
    ensures forall i :: 0 <= i < |QueryPairs(req, text)| ==> '&' !in QueryPairs(req, text)[i]
  {
  }

  /** Extending the text extends the last pair. */
  lemma QueryPairsExtend(req: Request, text: string, more: string)
    ensures QueryPairs(req, text + more)
      == QueryPairs(req, text)[..4] + [QueryPairs(req, text)[4] + more]
  {
    assert "q=" + (text + more) == ("q=" + text) + more;
  }

  /**
   * Because the text is not escaped, an `&` in it ends the `q` parameter: the
   * query reader finds only what comes before the first `&` as the text.
   */
  lemma AmpersandEndsText(req: Request, a: string, b: string)
    requires PlainCode(req.sl) && PlainCode(req.tl)
    requires '&' !in a && '#' !in a && '#' !in b
    ensures QueryString.Param(Url(req, a + "&" + b), "q") == Some(a)
  {
    assert '#' !in a + "&" + b;
    UrlQuery(req, a + "&" + b);
    AmpersandSplitsQuery(req, a, b);
    LookupInPairs(req, a, SplitOn(b, '&'));
  }

  /** Appending to the text appends to the URL. */
  lemma UrlExtend(req: Request, text: string, more: string)
    ensures Url(req, text + more) == Url(req, text) + more
  {
  }

  /** With a `#` in the text, the query string is the pairs for the text before it. */
  lemma FragmentUrlQuery(req: Request, a: string, b: string)
    requires '#' !in req.sl && '#' !in req.tl && '#' !in a
    ensures QueryString.QueryOf(Url(req, a + "#" + b)) == JoinWith(QueryPairs(req, a), '&')
  {
    var query := JoinWith(QueryPairs(req, a), '&');
    JoinedPairs(req, a);
    assert Url(req, a) == Endpoint + "?" + query;
    UrlExtend(req, a, "#" + b);
    assert a + ("#" + b) == a + "#" + b;
    assert Url(req, a) + ("#" + b) == Endpoint + "?" + query + "#" + b;
    EndpointHasNoQuery();
    assert '#' !in "client=gtx&sl=" && '#' !in "&tl=" && '#' !in "&dt=t&q=";
    QueryString.QueryOfFragmentUrl(Endpoint, query, b);
  }

  /**
   * Because the text is not escaped, a `#` in it starts the URL's fragment: what
   * follows it is not part of the query, so `q` is only the text before the `#`.
   */
  lemma HashEndsText(req: Request, a: string, b: string)
    requires PlainCode(req.sl) && PlainCode(req.tl)
    requires '&' !in a && '#' !in a
    ensures QueryString.Param(Url(req, a + "#" + b), "q") == Some(a)
  {
    FragmentUrlQuery(req, a, b);
    PairsHaveNoAmpersand(req, a);
    SplitJoin(QueryPairs(req, a), '&');
    LookupInPairs(req, a, []);
    assert QueryPairs(req, a) + [] == QueryPairs(req, a);
  }

  /** None of the three requests has a code that would need escaping. */
  lemma RequestsArePlain()
    ensures forall i :: 0 <= i < |Requests| ==> PlainCode(Requests[i].sl) && PlainCode(Requests[i].tl)
  {
    assert PlainCode("en") && PlainCode("uk") && PlainCode("auto");
  }

  /**
   * Every dispatched URL carries its request's codes and the remainder of the
   * input, when that remainder holds no `&` or `#`.
   */
  lemma DispatchedCarriesRequests(config: Config, input: string, i: nat)
    requires Remainder(config, input).Some?
    requires '&' !in Remainder(config, input).value && '#' !in Remainder(config, input).value
    requires i < |Requests|
    ensures i < |Dispatched(config, input)|
    ensures QueryString.Param(Dispatched(config, input)[i], "sl") == Some(Requests[i].sl)
    ensures QueryString.Param(Dispatched(config, input)[i], "tl") == Some(Requests[i].tl)
    ensures QueryString.Param(Dispatched(config, input)[i], "q") == Some(Remainder(config, input).value)
  {
    RequestsArePlain();
    UrlCarriesRequest(Requests[i], Remainder(config, input).value);
  }

  // ---------------------------------------------------------------------------
  // Decoding one response
  // ---------------------------------------------------------------------------

  /** A segment the decoder accepts: an array whose first element is a string. */
  ghost predicate WellFormedSegment(segment: Json)
  {
    segment.Arr? && |segment.items| > 0 && segment.items[0].Str?
  }

  /** A response whose `[0]` is an array of well-formed segments. */
  ghost predicate HasTranslation(json: Json)
  {
    At(json, 0).Arr? && forall i :: 0 <= i < |At(json, 0).items| ==> WellFormedSegment(At(json, 0).items[i])
  }

  /** A response the decoder accepts: a translation in `[0]` and a string in `[2]`. */
  ghost predicate WellFormedResponse(json: Json)
  {
    HasTranslation(json) && At(json, 2).Str?
  }

  /** The fragments of a response that has a translation: the first element of each segment. */
  ghost function Fragments(json: Json): (fragments: seq<string>)
    requires HasTranslation(json)
    ensures |fragments| == |At(json, 0).items|
  {
    var segments := At(json, 0).items;
    seq(|segments|, i requires 0 <= i < |segments| => segments[i].items[0].s)
  }

  /** The translated fragment of one segment: its first element, which must be a string. */
  function SegmentText(segment: Json): (r: Decoded<string>)
    ensures r.Ok? <==> WellFormedSegment(segment)
    ensures r.Ok? ==> r.value == segment.items[0].s
    ensures r.Panicked? && segment.Arr? && segment.items == [] ==> r.panic == IndexOutOfBounds
    ensures r.Panicked? && !(segment.Arr? && segment.items == []) ==> r.panic == MalformedJson
  {
    match AsArray(segment)
    case None => Panicked(MalformedJson)
    case Some(items) =>
      if items == [] then Panicked(IndexOutOfBounds)
      else
        match AsStr(items[0])
        case None => Panicked(MalformedJson)
        case Some(fragment) => Ok(fragment)
  }

  /**
   * The fragments of all segments, in order. The first segment that is not
   * well-formed panics, and its panic is the one reported.
   */
  function SegmentTexts(segments: seq<Json>): (r: Decoded<seq<string>>)
    ensures r.Ok? <==> forall i :: 0 <= i < |segments| ==> WellFormedSegment(segments[i])
    ensures r.Ok? ==> |r.value| == |segments|
    ensures r.Ok? ==> forall i :: 0 <= i < |segments| ==> r.value[i] == segments[i].items[0].s
    ensures r.Panicked? ==>
      exists k :: 0 <= k < |segments| && SegmentText(segments[k]) == Panicked(r.panic)
        && forall i :: 0 <= i < k ==> WellFormedSegment(segments[i])
  {
    if segments == [] then Ok([])
    else
      match SegmentText(segments[0])
      case Panicked(p) => Panicked(p)
      case Ok(fragment) =>
        match SegmentTexts(segments[1..])
        case Panicked(p) =>
          assert exists k :: 0 <= k < |segments| && SegmentText(segments[k]) == Panicked(p)
                   && forall i :: 0 <= i < k ==> WellFormedSegment(segments[i]) by {
            var k :| 0 <= k < |segments| - 1 && SegmentText(segments[1..][k]) == Panicked(p)
                     && forall i :: 0 <= i < k ==> WellFormedSegment(segments[1..][i]);
            assert SegmentText(segments[k + 1]) == Panicked(p);
            assert forall i :: 0 <= i < k + 1 ==> WellFormedSegment(segments[i]);
          }
          Panicked(p)
        case Ok(fragments) => Ok([fragment] + fragments)
  }

  /**
   * The title: the fragments of the segments in `json[0]`, joined with single
   * spaces. It exists exactly when `json[0]` is an array of well-formed segments.
   */
  function Title(json: Json): (r: Decoded<string>)
    ensures r.Ok? <==> HasTranslation(json)
    ensures r.Ok? ==> r.value == JoinWith(Fragments(json), ' ')
  {
    match AsArray(At(json, 0))
    case None => Panicked(MalformedJson)
    case Some(segments) =>
      match SegmentTexts(segments)
      case Panicked(p) => Panicked(p)
      case Ok(fragments) =>
        assert fragments == Fragments(json);
        Ok(JoinWith(fragments, ' '))
  }

  /** The detected source language, `json[2]`, which must be a string. */
  function DetectedLanguage(json: Json): (r: Decoded<string>)
    ensures r.Ok? <==> At(json, 2).Str?
    ensures r.Ok? ==> r.value == At(json, 2).s
    ensures r.Panicked? ==> r.panic == MalformedJson
  {
    match AsStr(At(json, 2))
    case None => Panicked(MalformedJson)
    case Some(lang) => Ok(lang)
  }

  /**
   * The description of a match: the request's name, except for the auto-detect
   * request, which names the direction the detected language implies and the
   * detected code.
   */
  function Description(name: string, lang: string): (d: string)
    ensures name != AutoDetect ==> d == name
    ensures name == AutoDetect ==>
      |d| == 32 + |lang| && d[19..31] == " (detected: " && d[31..|d| - 1] == lang && d[|d| - 1] == ')'
  {
    if name == AutoDetect then
      var direction := if lang == "en" then UkrainianToEnglish else EnglishToUkrainian;
      direction + " (detected: " + lang + ")"
    else name
  }

  /** The match for one response body, or the panic that decoding it raises. */
  function DecodeMatch(name: string, json: Json): (r: Decoded<Match>)
    ensures r.Ok? <==> WellFormedResponse(json)
    ensures r.Ok? ==> r.value.title == JoinWith(Fragments(json), ' ')
    ensures r.Ok? ==> r.value.description == Description(name, At(json, 2).s)
  {
    match Title(json)
    case Panicked(p) => Panicked(p)
    case Ok(title) =>
      match DetectedLanguage(json)
      case Panicked(p) => Panicked(p)
      case Ok(lang) => Ok(Match(title, Description(name, lang)))
  }

  /**
   * The single spaces that join the fragments are the only ones in the title when
   * the fragments themselves hold none: splitting the title on spaces gives them back.
   */
  lemma TitleSplitsIntoFragments(json: Json)
    requires HasTranslation(json) && |At(json, 0).items| > 0
    requires forall i :: 0 <= i < |Fragments(json)| ==> ' ' !in Fragments(json)[i]
    ensures Title(json).Ok? && SplitOn(Title(json).value, ' ') == Fragments(json)
  {
    SplitJoin(Fragments(json), ' ');
  }

  /**
   * Which panic a malformed response raises: `json[0]` not an array, the first
   * bad segment's (an empty segment is an index panic, any other shape a failed
   * `expect`), and otherwise `json[2]` not a string.
   */
  lemma MalformedResponsePanics(name: string, json: Json)
    ensures !At(json, 0).Arr? ==> DecodeMatch(name, json) == Panicked(MalformedJson)
    ensures forall k :: At(json, 0).Arr? && 0 <= k < |At(json, 0).items|
              && (forall i :: 0 <= i < k ==> WellFormedSegment(At(json, 0).items[i]))
              && !WellFormedSegment(At(json, 0).items[k])
              ==> DecodeMatch(name, json) == Panicked(SegmentText(At(json, 0).items[k]).panic)
    ensures HasTranslation(json) && !At(json, 2).Str? ==> DecodeMatch(name, json) == Panicked(MalformedJson)
  {
    if At(json, 0).Arr? {
      var segments := At(json, 0).items;
      forall k | 0 <= k < |segments| && (forall i :: 0 <= i < k ==> WellFormedSegment(segments[i]))
                 && !WellFormedSegment(segments[k])
        ensures DecodeMatch(name, json) == Panicked(SegmentText(segments[k]).panic)
      {
        FirstBadSegmentPanics(segments, k);
      }
    }
  }

  /** The segments are decoded in order: the first malformed one decides the panic. */
  lemma {:induction false} FirstBadSegmentPanics(segments: seq<Json>, k: nat)
    requires k < |segments|
    requires forall i :: 0 <= i < k ==> WellFormedSegment(segments[i])
    requires !WellFormedSegment(segments[k])
    ensures SegmentTexts(segments) == Panicked(SegmentText(segments[k]).panic)
  {
    if k > 0 {
      FirstBadSegmentPanics(segments[1..], k - 1);
    }
  }

  /**
   * The auto-detect description can be read back: it is 32 characters plus the
   * detected code, the code sits between `" (detected: "` and the closing
   * parenthesis, and it starts with `Ukrainian → English` exactly when the code is `en`.
   */
  lemma AutoDescriptionNamesLanguage(lang: string)
    ensures var d := Description(AutoDetect, lang);
      |d| == 32 + |lang| && d[31..|d| - 1] == lang
      && (d[..19] == UkrainianToEnglish <==> lang == "en")
      && (d[..19] == EnglishToUkrainian <==> lang != "en")
      && d[19..31] == " (detected: " && d[|d| - 1] == ')'
  {
    var d := Description(AutoDetect, lang);
    var direction := if lang == "en" then UkrainianToEnglish else EnglishToUkrainian;
    assert |direction| == 19;
    assert d == direction + " (detected: " + lang + ")";
    assert d[..19] == direction;
    assert d[31..|d| - 1] == lang;
    assert UkrainianToEnglish[0] != EnglishToUkrainian[0];
  }

  /** Distinct detected codes give distinct auto-detect descriptions. */
  lemma AutoDescriptionInjective(a: string, b: string)
    requires Description(AutoDetect, a) == Description(AutoDetect, b)
    ensures a == b
  {
    AutoDescriptionNamesLanguage(a);
    AutoDescriptionNamesLanguage(b);
  }

  /** The two fixed-direction requests are described by their own name, whatever was detected. */
  lemma FixedRequestsDescribedByName(i: nat, lang: string)
    requires i < |Requests| && Requests[i].name != AutoDetect
    ensures Description(Requests[i].name, lang) == Requests[i].name
  {
  }

  // ---------------------------------------------------------------------------
  // Assembling the matches
  // ---------------------------------------------------------------------------

  /** What one request contributes when the pipeline reaches it. */
  datatype Step = Emit(m: Match) | Skip | Abort(panic: Panic)

  /**
   * The step for one request, from its outcome: None (the send or the JSON body
   * read failed) is skipped, a body is decoded into a match or a panic.
   */
  function StepOf(req: Request, outcome: Option<Json>): (s: Step)
    ensures s.Skip? <==> outcome.None?
    ensures s.Emit? <==> outcome.Some? && WellFormedResponse(outcome.value)
    ensures s.Emit? ==> s.m.title == JoinWith(Fragments(outcome.value), ' ')
    ensures s.Emit? ==> s.m.description == Description(req.name, At(outcome.value, 2).s)
    ensures s.Abort? ==> outcome.Some? && DecodeMatch(req.name, outcome.value) == Panicked(s.panic)
  {
    match outcome
    case None => Skip
    case Some(json) =>
      match DecodeMatch(req.name, json)
      case Ok(m) => Emit(m)
      case Panicked(p) => Abort(p)
  }

  /** The steps of all requests, index by index. */
  function Steps(reqs: seq<Request>, outcomes: seq<Option<Json>>): (steps: seq<Step>)
    requires |reqs| == |outcomes|
    ensures |steps| == |outcomes|
    ensures forall i :: 0 <= i < |steps| ==> steps[i] == StepOf(reqs[i], outcomes[i])
  {
    seq(|reqs|, i requires 0 <= i < |reqs| => StepOf(reqs[i], outcomes[i]))
  }

  /**
   * `filter_map(..).take(n).collect()`: walks the steps in request order and stops
   * as soon as `n` matches are collected, so a step after that is never decoded
   * and cannot panic. `take(0)` reads nothing.
   */
  function TakeMatches(steps: seq<Step>, n: nat): (r: Decoded<seq<Match>>)
    ensures r.Ok? ==> |r.value| <= n && |r.value| <= |steps|
  {
    if n == 0 || steps == [] then Ok([])
    else
      match steps[0]
      case Skip => TakeMatches(steps[1..], n)
      case Abort(p) => Panicked(p)
      case Emit(m) =>
        match TakeMatches(steps[1..], n - 1)
        case Panicked(p) => Panicked(p)
        case Ok(ms) => Ok([m] + ms)
  }

  /** Every match the steps hold, in order: what an unbounded, panic-free pipeline would return. */
  ghost function Emitted(steps: seq<Step>): seq<Match>
  {
    if steps == [] then []
    else if steps[0].Emit? then [steps[0].m] + Emitted(steps[1..])
    else Emitted(steps[1..])
  }

  /** The first `n` elements of `s`, or all of them. */
  ghost function FirstN<T>(s: seq<T>, n: nat): seq<T>
  {
    if n < |s| then s[..n] else s
  }

  /** There are never more matches than steps. */
  lemma {:induction false} EmittedLength(steps: seq<Step>)
    ensures |Emitted(steps)| <= |steps|
  {
    if steps != [] {
      EmittedLength(steps[1..]);
    }
  }

  lemma {:induction false} EmittedAppend(a: seq<Step>, b: seq<Step>)
    ensures Emitted(a + b) == Emitted(a) + Emitted(b)
  {
    if a == [] {
      assert a + b == b;
    } else {
      assert (a + b)[0] == a[0] && (a + b)[1..] == a[1..] + b;
      EmittedAppend(a[1..], b);
    }
  }

  /** Step `i` is reached by the lazy pipeline when fewer than `n` matches come before it. */
  ghost predicate Reached(steps: seq<Step>, n: nat, i: nat)
    requires i <= |steps|
  {
    |Emitted(steps[..i])| < n
  }

  /**
   * What `TakeMatches` returns: it panics exactly when some panicking step is
   * reached, with the first such panic; otherwise it returns the first `n`
   * matches in request order.
   */
  lemma {:induction false} TakeMatchesSpec(steps: seq<Step>, n: nat)
    ensures TakeMatches(steps, n).Ok? <==>
      forall i :: 0 <= i < |steps| && steps[i].Abort? ==> !Reached(steps, n, i)
    ensures TakeMatches(steps, n).Ok? ==> TakeMatches(steps, n).value == FirstN(Emitted(steps), n)
    ensures TakeMatches(steps, n).Panicked? ==>
      exists i :: 0 <= i < |steps| && steps[i] == Abort(TakeMatches(steps, n).panic) && Reached(steps, n, i)
        && forall j :: 0 <= j < i ==> !steps[j].Abort?
  {
    if n == 0 || steps == [] {
      forall i | 0 <= i < |steps| ensures !Reached(steps, n, i) {
      }
    } else {
      var rest := steps[1..];
      var m := if steps[0].Emit? then n - 1 else n;
      TakeMatchesSpec(rest, m);
      forall i | 0 <= i < |rest| ensures Reached(steps, n, i + 1) <==> Reached(rest, m, i) {
        assert steps[..i + 1] == [steps[0]] + rest[..i];
        EmittedAppend([steps[0]], rest[..i]);
      }
      assert Emitted(steps[..0]) == [];
      assert Emitted(steps) == (if steps[0].Emit? then [steps[0].m] else []) + Emitted(rest);
      if !steps[0].Abort? {
        forall i | 0 <= i < |steps| && steps[i].Abort? && Reached(steps, n, i)
          ensures TakeMatches(steps, n).Panicked?
        {
          assert rest[i - 1].Abort? && Reached(rest, m, i - 1);
        }
        if TakeMatches(steps, n).Panicked? {
          var k :| 0 <= k < |rest| && rest[k] == Abort(TakeMatches(steps, n).panic) && Reached(rest, m, k)
                   && forall j :: 0 <= j < k ==> !rest[j].Abort?;
          assert steps[k + 1] == rest[k];
        }
      }
    }
  }

  // ---------------------------------------------------------------------------
  // get_matches and handler
  // ---------------------------------------------------------------------------

  /**
   * `get_matches`: no matches and no requests when the gate rejects the input;
   * otherwise the matches of the three requests in request order, `max_entries`
   * at most. `outcomes[i]` is the parsed body of request `i`, or None when it failed.
   */
  function GetMatches(config: Config, input: string, outcomes: seq<Option<Json>>): (r: Decoded<seq<Match>>)
    requires |outcomes| == |Requests|
    ensures Remainder(config, input).None? ==> r == Ok([]) && Dispatched(config, input) == []
    ensures r.Ok? ==> |r.value| <= config.maxEntries && |r.value| <= |Requests|
    ensures r.Panicked? ==> |Dispatched(config, input)| == |Requests|
  {
    match Remainder(config, input)
    case None => Ok([])
    case Some(_) => TakeMatches(Steps(Requests, outcomes), config.maxEntries)
  }

  /** `handler`: the bytes copied for a selected match are the UTF-8 encoding of its title. */
  function Handler(selection: Match): (bytes: seq<Utf8.Byte>)
    ensures Utf8.Decode(bytes) == Some(selection.title)
  {
    Utf8.DecodeEncode(selection.title);
    Utf8.Encode(selection.title)
  }

  /**
   * Past the gate, `get_matches` panics exactly when a panicking response is
   * reached before `max_entries` matches are collected; otherwise it returns the
   * first `max_entries` matches in request order, whatever order the responses
   * arrived in.
   */
  lemma GetMatchesSpec(config: Config, input: string, outcomes: seq<Option<Json>>)
    requires |outcomes| == |Requests|
    requires Remainder(config, input).Some?
    ensures GetMatches(config, input, outcomes) == TakeMatches(Steps(Requests, outcomes), config.maxEntries)
    ensures var steps := Steps(Requests, outcomes);
      GetMatches(config, input, outcomes).Ok? <==>
        forall i :: 0 <= i < |steps| && steps[i].Abort? ==> !Reached(steps, config.maxEntries, i)
    ensures GetMatches(config, input, outcomes).Ok? ==>
      GetMatches(config, input, outcomes).value == FirstN(Emitted(Steps(Requests, outcomes)), config.maxEntries)
    ensures var steps := Steps(Requests, outcomes);
      GetMatches(config, input, outcomes).Panicked? ==>
        exists i :: 0 <= i < |steps| && steps[i] == Abort(GetMatches(config, input, outcomes).panic)
          && Reached(steps, config.maxEntries, i) && forall j :: 0 <= j < i ==> !steps[j].Abort?
  {
    TakeMatchesSpec(Steps(Requests, outcomes), config.maxEntries);
  }

  /** An input that is exactly the prefix has no matches and sends no request. */
  lemma PrefixAloneHasNoMatches(config: Config, outcomes: seq<Option<Json>>)
    requires |outcomes| == |Requests|
    ensures Dispatched(config, config.prefix) == []
    ensures GetMatches(config, config.prefix, outcomes) == Ok([])
  {
  }

  /** Only emptiness is tested: a remainder of one blank still sends all three requests. */
  lemma BlankRemainderIsTranslated(config: Config, outcomes: seq<Option<Json>>)
    requires |outcomes| == |Requests|
    ensures Dispatched(config, config.prefix + " ") == [Url(Requests[0], " "), Url(Requests[1], " "), Url(Requests[2], " ")]
    ensures GetMatches(config, config.prefix + " ", outcomes) == TakeMatches(Steps(Requests, outcomes), config.maxEntries)
  {
    var input := config.prefix + " ";
    assert config.prefix <= input;
    assert input[|config.prefix|..] == " ";
  }

  /** With `max_entries` 0 nothing is decoded: no match and no panic, whatever the responses. */
  lemma ZeroEntriesHasNoMatches(config: Config, input: string, outcomes: seq<Option<Json>>)
    requires |outcomes| == |Requests|
    requires config.maxEntries == 0
    ensures GetMatches(config, input, outcomes) == Ok([])
  {
  }

  /**
   * A failed request contributes nothing and leaves its siblings' matches as they
   * were: failing request `i` removes exactly request `i`'s match, if it had one.
   */
  lemma FailedRequestContributesNothing(outcomes: seq<Option<Json>>, i: nat)
    requires |outcomes| == |Requests| && i < |outcomes|
    ensures var steps := Steps(Requests, outcomes);
      Emitted(Steps(Requests, outcomes[i := None])) == Emitted(steps[..i]) + Emitted(steps[i + 1..])
  {
    var steps := Steps(Requests, outcomes);
    var failed := Steps(Requests, outcomes[i := None]);
    assert failed == steps[..i] + [Skip] + steps[i + 1..];
    EmittedAppend(steps[..i] + [Skip], steps[i + 1..]);
    EmittedAppend(steps[..i], [Skip]);
  }

  /** `[[["Привіт"]], null, "uk"]`: a reply that translates "Hello" into Ukrainian. */
  function HelloReply(): Json
  {
    Arr([Arr([Arr([Str(Privit())])]), Null, Str("uk")])
  }

  /** "Привіт". */
  function Privit(): string
  {
    "\U{041F}\U{0440}\U{0438}\U{0432}\U{0456}\U{0442}"
  }

  /** The reply decodes, under any request name, to the title "Привіт" and the detected code `uk`. */
  lemma HelloReplyDecodes(name: string)
    ensures DecodeMatch(name, HelloReply()) == Ok(Match(Privit(), Description(name, "uk")))
  {
    var reply := HelloReply();
    var segments := At(reply, 0).items;
    assert segments == [Arr([Str(Privit())])];
    assert SegmentText(segments[0]) == Ok(Privit());
    assert segments[1..] == [];
    assert SegmentTexts(segments[1..]) == Ok([]);
    assert [Privit()] + [] == [Privit()];
    assert SegmentTexts(segments) == Ok([Privit()]);
    assert Title(reply) == Ok(Privit());
    assert DetectedLanguage(reply) == Ok("uk");
  }

  /**
   * With the default settings, "Hello" and three successful replies give three
   * matches titled "Привіт", described in request order; the auto-detect one
   * reports the detected code `uk`.
   */
  lemma HelloExample()
    ensures GetMatches(DefaultConfig(), "Hello", [Some(HelloReply()), Some(HelloReply()), Some(HelloReply())])
      == Ok([Match(Privit(), EnglishToUkrainian), Match(Privit(), UkrainianToEnglish),
             Match(Privit(), EnglishToUkrainian + " (detected: uk)")])
  {
    var outcomes := [Some(HelloReply()), Some(HelloReply()), Some(HelloReply())];
    HelloReplyDecodes(EnglishToUkrainian);
    HelloReplyDecodes(UkrainianToEnglish);
    HelloReplyDecodes(AutoDetect);
    assert "uk" != "en";
    var m0, m1, m2 := Match(Privit(), EnglishToUkrainian), Match(Privit(), UkrainianToEnglish),
                      Match(Privit(), EnglishToUkrainian + " (detected: uk)");
    var steps := Steps(Requests, outcomes);
    assert steps[0] == StepOf(Requests[0], outcomes[0]) == Emit(m0);
    assert steps[1] == StepOf(Requests[1], outcomes[1]) == Emit(m1);
    assert steps[2] == StepOf(Requests[2], outcomes[2]) == Emit(m2);
    assert steps[3..] == [];
    assert TakeMatches(steps[3..], 0) == Ok([]);
    assert steps[2..][0] == Emit(m2) && steps[2..][1..] == steps[3..];
    assert [m2] + [] == [m2];
    assert TakeMatches(steps[2..], 1) == Ok([m2]);
    assert steps[1..][0] == Emit(m1) && steps[1..][1..] == steps[2..];
    assert [m1] + [m2] == [m1, m2];
    assert TakeMatches(steps[1..], 2) == Ok([m1, m2]);
    assert [m0] + [m1, m2] == [m0, m1, m2];
    assert TakeMatches(steps, 3) == Ok([m0, m1, m2]);
    DefaultConfigTranslatesWholeInput("Hello");
  }

  /**
   * `take` is lazy: with `max_entries` 1 the malformed second reply is never
   * decoded, while with 2 it is, and `get_matches` panics.
   */
  lemma LaterMalformedReplyIsNotReached()
    ensures GetMatches(Config("", 1), "Hello", [Some(HelloReply()), Some(Arr([])), None])
      == Ok([Match(Privit(), EnglishToUkrainian)])
    ensures GetMatches(Config("", 2), "Hello", [Some(HelloReply()), Some(Arr([])), None])
      == Panicked(MalformedJson)
  {
    var outcomes := [Some(HelloReply()), Some(Arr([])), None];
    HelloReplyDecodes(EnglishToUkrainian);
    var m0 := Match(Privit(), EnglishToUkrainian);
    assert Title(Arr([])) == Panicked(MalformedJson);
    var steps := Steps(Requests, outcomes);
    assert steps[0] == StepOf(Requests[0], outcomes[0]) == Emit(m0);
    assert steps[1] == StepOf(Requests[1], outcomes[1]) == Abort(MalformedJson);
    assert TakeMatches(steps[1..], 0) == Ok([]);
    assert [m0] + [] == [m0];
    assert TakeMatches(steps, 1) == Ok([m0]);
    assert TakeMatches(steps[1..], 0) == Ok([]);
    assert TakeMatches(steps[1..], 1) == Panicked(MalformedJson);
    DefaultConfigTranslatesWholeInput("Hello");
    assert Remainder(Config("", 1), "Hello") == Remainder(DefaultConfig(), "Hello");
    assert Remainder(Config("", 2), "Hello") == Remainder(DefaultConfig(), "Hello");
  }
}
