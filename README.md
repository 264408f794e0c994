# Translate plugin — a Dafny model

This project models the anyrun "Translate" plugin (`plugins/translate/src/lib.rs`).
The plugin takes the text typed into the launcher. It checks the configured prefix and cuts it off.
It then sends the rest to Google Translate three times: English→Ukrainian, Ukrainian→English and
auto-detect. Each reply is decoded into a launcher match, and at most `max_entries` matches are kept.
When the user selects a match, its title is copied as bytes.

The model is pure: datatypes, functions and lemmas, with the network replaced by a parameter.

- `wrappers.dfy`: `Option`.
- `json.dfy`: the subset of `serde_json::Value` the plugin reads. `At` follows `Value[usize]`:
  it returns `Null` when the value is not an array or the index is out of range.
- `strings.dfy`: `JoinWith` (Rust's `join`) and `SplitOn`. Lemmas show that joining and splitting
  undo each other.
- `utf8.dfy`: UTF-8 encoding and a validating decoder. Rust's `starts_with` and `prefix.len()`
  work on bytes, while the model works on `char`s. The lemmas here show the two views agree.
- `querystring.dfy`: a reference reader for a URL's query string. It splits on `&` and stops at `#`.
  It is used to state which source language, target language and text each request URL carries.
- `translate.dfy`: the plugin itself, covering:
  - `Config` and its defaults;
  - the prefix gate (`Remainder`);
  - the three fixed requests (`Requests`, `Url`, `Dispatched`);
  - the reply decoder (`SegmentText`, `SegmentTexts`, `Title`, `DetectedLanguage`, `Description`, `DecodeMatch`);
  - the lazy assembler (`StepOf`, `Steps`, `TakeMatches`, `GetMatches`);
  - `Handler`.

Each `expect("Malformed JSON!")` in the decoder panics the plugin, and so does indexing `[0]` into an
empty segment. The model keeps these panics visible: a decode is `Ok(value)` or `Panicked(kind)`,
and the assembled result is one of three things: matches, no matches, or a panic.

The assembler follows the iterator chain exactly. `filter_map(...).take(n)` is lazy, so a reply is
decoded only if fewer than `n` matches were produced before it. A malformed reply after the `n`-th
match therefore does not panic. With `n = 0`, nothing is decoded at all (`TakeMatchesSpec`,
`LaterMalformedReplyIsNotReached`, `ZeroEntriesHasNoMatches`).

The request text is pasted into the URL without escaping. The model proves what that means. If the
text has no `&` and no `#`, the `q` parameter reads back as exactly that text (`UrlCarriesRequest`).
If it has an `&`, the `q` parameter stops there (`AmpersandEndsText`). If it has a `#`, the rest of
the text becomes the URL's fragment and is not part of the query (`HashEndsText`).

A reply that parses as JSON but has the wrong shape panics. Only a failed request, or a body that
is not JSON, is skipped.

## Model

| member | source | states |
|---|---|---|
| Translate.DefaultConfig | plugins/translate/src/lib.rs:13-20 | when no config is read, the prefix is empty and at most three matches are kept |
| Translate.Remainder | plugins/translate/src/lib.rs:50-59 | a remainder exists exactly when the input starts with the prefix and is longer than it, and prefix plus remainder is the input |
| Translate.RemainderIsByteSlice | plugins/translate/src/lib.rs:50-55 | the char-level gate agrees with the byte-level `starts_with` and the byte slice at `prefix.len()` |
| Translate.DefaultConfigTranslatesWholeInput | plugins/translate/src/lib.rs:13-20 | with the default config (empty prefix), every non-empty input is translated whole and the empty input is not |
| Translate.DefaultConfigKeepsEveryMatch | plugins/translate/src/lib.rs:13-20 | with the default limit of 3, a successful result holds every match produced by the three requests |
| Translate.Dispatched | plugins/translate/src/lib.rs:61-100 | no request is sent exactly when the gate rejects the input; otherwise exactly three are sent, the i-th being the URL of the i-th fixed request for the remainder, whatever the remainder holds |
| Translate.Url | plugins/translate/src/lib.rs:63-100 | each request URL is the endpoint, a `?`, and the `key=value` pairs `client=gtx`, `sl`, `tl`, `dt=t` and `q` (the text as it is) joined with `&` |
| Translate.UrlCarriesRequest | plugins/translate/src/lib.rs:68-71 | when the text has no `&` or `#`, the request URL's `sl`, `tl` and `q` parameters read back as the request's languages and the text |
| Translate.DispatchedCarriesRequests | plugins/translate/src/lib.rs:63-100 | when the remainder holds no `&` or `#`, the i-th URL sent carries the i-th fixed request's language pair and the remainder of the input |
| Translate.AmpersandEndsText | plugins/translate/src/lib.rs:68-71 | because the text is not escaped, an `&` in it cuts the `q` parameter short at the `&` |
| Translate.HashEndsText | plugins/translate/src/lib.rs:68-71 | because the text is not escaped, a `#` in it starts the URL's fragment, so the `q` parameter is only the text before the `#` |
| Translate.RequestsArePlain | plugins/translate/src/lib.rs:69-93 | the language codes of all three requests contain no `&` or `#`, so they need no escaping |
| Json.At | plugins/translate/src/lib.rs:112-125 | indexing a JSON value gives the element when the value is an array long enough, and `Null` otherwise, never a panic |
| Translate.SegmentText | plugins/translate/src/lib.rs:116-121 | a segment decodes exactly when it is an array whose first item is a string; an empty array panics with an index error, and every other shape with the malformed-JSON panic |
| Translate.SegmentTexts | plugins/translate/src/lib.rs:112-123 | all segments decode exactly when each one is well formed, giving their first strings in order; otherwise the panic is the one from the first bad segment |
| Translate.Title | plugins/translate/src/lib.rs:112-123 | the title exists exactly when `json[0]` is an array of well-formed segments, and it is their fragments joined with single spaces |
| Translate.TitleSplitsIntoFragments | plugins/translate/src/lib.rs:122-123 | when there is at least one segment and no fragment contains a space, splitting the title on spaces gives the fragments back |
| Translate.DetectedLanguage | plugins/translate/src/lib.rs:125 | the detected language exists exactly when `json[2]` is a string, and is that string; otherwise decoding panics as malformed JSON |
| Translate.Description | plugins/translate/src/lib.rs:126-135 | the two fixed requests are described by their own name; the auto-detect one by a 19-character direction, the literal " (detected: ", the language code and a closing ")" |
| Translate.DecodeMatch | plugins/translate/src/lib.rs:111-144 | a reply decodes exactly when it is well formed (translation segments and a string at `json[2]`); the match's title is the segments' fragments joined with single spaces, and its description is the one for the request name and detected language |
| Translate.MalformedResponsePanics | plugins/translate/src/lib.rs:112-125 | a non-array `json[0]`, a bad segment, or a non-string `json[2]` each make decoding panic, with the matching panic kind |
| Translate.FirstBadSegmentPanics | plugins/translate/src/lib.rs:115-122 | segments are decoded in order, so the first bad segment decides the panic |
| Translate.AutoDescriptionNamesLanguage | plugins/translate/src/lib.rs:126-132 | the auto-detect description names a direction (Ukrainian→English exactly when the detected language is "en") followed by the literal " (detected: ", the language code and a closing ")", so the code can be read back |
| Translate.AutoDescriptionInjective | plugins/translate/src/lib.rs:126-132 | two auto-detect descriptions are equal only when the detected languages are equal |
| Translate.FixedRequestsDescribedByName | plugins/translate/src/lib.rs:133-135 | the two fixed-direction requests are described by their own name, whatever language is detected |
| Translate.StepOf | plugins/translate/src/lib.rs:106-110 | a failed request is skipped, and a well-formed reply emits a match whose title is the reply's fragments joined with spaces and whose description is the request's; any other reply is an abort carrying the panic that decoding it raises |
| Translate.Steps | plugins/translate/src/lib.rs:104-106 | there is one step per request, and the i-th step is the outcome of the i-th request in request order |
| Translate.TakeMatches | plugins/translate/src/lib.rs:104-149 | the collected matches are never more than the limit or the number of requests |
| Translate.TakeMatchesSpec | plugins/translate/src/lib.rs:104-149 | the result succeeds exactly when no abort is reached before the limit is filled; it is then the first n emitted matches in request order; otherwise the panic is the first reached abort |
| Translate.EmittedAppend | plugins/translate/src/lib.rs:104-147 | the matches emitted by consecutive requests are the concatenation of their emitted matches |
| Translate.GetMatches | plugins/translate/src/lib.rs:48-151 | a rejected input gives no matches and sends no request; a result holds at most `max_entries` and at most three matches; a panic happens only after all three requests were sent |
| Translate.GetMatchesSpec | plugins/translate/src/lib.rs:102-149 | for an accepted input, the result is the lazy take over the three replies in request order: it succeeds exactly when no abort is reached before the limit, it is then the first `max_entries` emitted matches, and otherwise the panic is the first reached abort |
| Translate.PrefixAloneHasNoMatches | plugins/translate/src/lib.rs:55-59 | an input that is exactly the prefix gives no matches and sends no request |
| Translate.BlankRemainderIsTranslated | plugins/translate/src/lib.rs:55-100 | a remainder that is only a space is not empty, so the three requests are still made, each with a URL whose text is that space |
| Translate.ZeroEntriesHasNoMatches | plugins/translate/src/lib.rs:148 | with `max_entries` of 0 the result is empty and no reply is decoded, so no panic happens |
| Translate.FailedRequestContributesNothing | plugins/translate/src/lib.rs:106-110 | a failed request contributes no match, and the others keep their order |
| Translate.HelloReplyDecodes | plugins/translate/src/lib.rs:112-135 | a typical reply decodes to its translation with the description for "uk" |
| Translate.HelloExample | plugins/translate/src/lib.rs:63-149 | "Hello" with the default config and three good replies gives three matches in request order; the auto-detect one is described as "English → Ukrainian (detected: uk)" |
| Translate.LaterMalformedReplyIsNotReached | plugins/translate/src/lib.rs:146-149 | a malformed second reply is ignored when the limit is 1 and panics when the limit is 2 |
| Translate.Handler | plugins/translate/src/lib.rs:153-156 | the copied bytes are the UTF-8 encoding of the title: decoding them gives the title back |
| Utf8.Encode | plugins/translate/src/lib.rs:155 | the UTF-8 encoding of a string takes between one and four bytes per character |
| Utf8.DecodeEncode | plugins/translate/src/lib.rs:155 | decoding the UTF-8 encoding of any string gives that string |
| Utf8.BytePrefixIsCharPrefix | plugins/translate/src/lib.rs:50 | one string's bytes start another's exactly when its chars start the other's |
| Utf8.ByteSliceIsCharSlice | plugins/translate/src/lib.rs:55 | slicing the bytes at the prefix's byte length gives the encoding of the char remainder |
| Strings.SplitJoin | plugins/translate/src/lib.rs:122-123 | splitting a join on its separator gives the pieces back when no piece contains the separator |
| Strings.JoinSplit | plugins/translate/src/lib.rs:122-123 | joining the pieces of a split gives the original string |
| Strings.JoinWith | plugins/translate/src/lib.rs:122-123 | a join's length is the pieces' total length plus one separator between each pair |

## Left out

- The HTTP client (`reqwest`), the tokio runtime and `join_all` are left out. The three replies are a parameter to `GetMatches`: `None` for a failed request or a body that is not JSON, `Some(json)` otherwise. Concurrency and timing are not modelled; only the order of the results matters, and it is the order of the requests.
- Parsing JSON from bytes (`response.json()`) is not modelled. JSON numbers are integers only; the plugin never reads a number.
- Reading `translate.ron` in `init` and parsing RON are left out. Only `Config::default` is modelled, and any other config is a parameter.
- `info` (plugin name and icon) is constant data with nothing to prove, so it is left out.
- `Match.use_pango`, `icon` and `id` are constants and are not modelled. The description is always `RSome`, so it is a plain string.
- Translate.Url: the URL is modelled as the string passed to `client.get`. The model does not cover what the URL parser does to that string: it trims leading and trailing spaces and control characters, drops every tab and newline, and percent-encodes spaces and non-ASCII characters. So a remainder of a single space reaches the server as an empty `q`. The model also does not cover how the server decodes `+` and `%`, and the query reader does no percent-decoding.
- `max_entries` is a `nat`, without the `usize` bound.
- A panic is returned as a value. Whatever then happens to the launcher process is outside the model.
