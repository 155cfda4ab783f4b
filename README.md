# Telegram catalog bot: callback tokens, keyboards, playback links, webhook dispatch

The bot is a single Express server (`index.js`). A Telegram webhook
delivers updates: a `/start` message or a press on an inline-keyboard
button. The bot answers with a page of a series' episode catalog, shown as
one button per episode plus a Previous/Next navigation row. A press on an
episode button gets a shareable stream-test link for that episode's DASH
manifest and Widevine license. Buttons carry callback tokens of the form
`KIND::n`, with kind `PAGE` or `PLAY`.

This project models the logic inside that I/O, with the network treated as
supplying input values:

- `wrappers.dfy` (`Wrappers`): `Option`. JavaScript's `NaN` and `undefined` are `None`.
- `js_text.dfy` (`JsText`): the JavaScript string and number primitives the
  handler relies on. These are `split` (leftmost, non-overlapping occurrences),
  `String(n)` for integers as the template literals write them, and
  `parseInt` without a radix as ECMA-262 defines it. That covers leading
  white space, a sign, a `0x` prefix, the longest digit prefix, and NaN when
  no digits are found.
- `uri_component.dfy` (`UriComponent`): `encodeURIComponent` as ECMA-262
  section 18.2.6.5 defines it. Unreserved characters are kept and every other
  character becomes the UTF-8 bytes of its code point, each written as an
  RFC 3986 section 2.1 triplet. A percent-decoder is also modelled, as the
  partner that reads the encoding back.
- `callback.dfy` (`Callback`): the `KIND::n` token codec. A token is built with a
  template literal. It is read with `split("::")[0]` for the kind and
  `parseInt(split("::")[1])` for the number.
- `catalog.dfy` (`Catalog`): the episode rows of `getEpisodes`, the page count
  `Math.ceil(totalAsset / 10)`, and the navigation row and keyboard assembly
  of the handler. `BuildKeyboard` pushes onto the row step by step, as the
  handler does.
- `stream.dfy` (`Stream`): the link of `getStreamUrl`, built from the first
  playback entry. A small URL-query reader is modelled next to it, so that the
  link can be shown to carry both URLs intact.
- `webhook.dfy` (`Webhook`): the webhook handler. `Dispatch` is its decision
  logic, a function from the update to the actions taken: a catalog reply,
  then a playback reply. `Replies` gives the messages sent for those actions.
  `HandleUpdate` is the handler written out with its reassigned locals. It is
  proved to send exactly `Replies`.

The catalog service and the playback service (the guest-token exchange
followed by the playback request) are inputs of `HandleUpdate`. Each is a
function from the requested page or id to the service's answer, and the
page or id is `None` when it is NaN. The playback answer is either the
`playbackUrls` list or the failure message that the error response carries.

The handler's behaviour is followed where it differs from the intended
design of the bot. A `PAGE` token whose number does not parse, such as
`PAGE::abc` or a bare `PAGE`, is not dropped. The catalog test only looks at
the first segment, so the token still gets a catalog reply for page NaN. That
reply has the episode rows and no navigation row (`Webhook.DispatchMalformedPage`,
`Catalog.NaNPageKeyboard`).
Page numbers 0 and below are not rejected either: page 0 shows only Next, to page 1, when there is at least one page, and no navigation at all when `totalAsset` is 0.

## Model

| member | source | states |
|---|---|---|
| JsText.FindFrom | index.js:124 | the index found is the leftmost occurrence of the separator at or after the start, and `None` means there is no occurrence there |
| JsText.Split | index.js:124 | `split` always yields at least one part, so `[0]` is always defined; `SplitUnique` shows that `JoinSplit` and `SplitParts` determine every part |
| JsText.SplitParts | index.js:124-125 | no part contains the separator and every cut is at the leftmost occurrence; there is one part exactly when the separator does not occur, and then it is the whole string; otherwise the first part is the text before the first occurrence |
| JsText.SplitCutsLeftmost | index.js:124-125 | after each part but the last, the leftmost occurrence of the separator starts right where the part ends |
| JsText.SplitUnique | index.js:124-125 | any list of separator-free parts, cut at leftmost occurrences, whose join is the string, is the split of that string: the split is determined by these facts |
| JsText.SplitAtCut | index.js:124 | a split cuts a part off first when the leftmost occurrence after it starts right where it ends |
| JsText.BeforeFirst | index.js:124 | the text before the first occurrence of the separator does not contain it |
| JsText.JoinSplit | index.js:124 | joining the parts of `split` with the separator gives the string back |
| JsText.SplitAfter | index.js:124 | `split` cuts off a first piece that holds no character of the separator (no ':' for `"::"`) and goes on with the rest; `SplitAtCut` is the general case |
| JsText.SplitJoin | index.js:124-125 | splitting a join of parts that hold no character of the separator (no ':' for `"::"`) gives exactly those parts; `SplitUnique` is the general case |
| JsText.DigitRun | index.js:125 | the digit run is the longest prefix of digits of the radix |
| JsText.NatToDecimal | index.js:42 | the decimal numeral is non-empty, made of digits, has a leading zero only for 0, and has value n |
| JsText.IntToString | index.js:42 | `String(n)` is non-empty and made of digits and '-' |
| JsText.TrimStart | index.js:125 | the trimmed string is a suffix of the input and does not start with white space; `TrimStartDropsWhiteSpace` states that what it drops is white space |
| JsText.TrimStartDropsWhiteSpace | index.js:125 | the prefix that trimming drops is all StrWhiteSpace, so together with `TrimStart` the result is the input minus its longest white-space prefix |
| JsText.TrimWhiteSpace | index.js:125 | trimming white space followed by any text gives the trimmed text |
| JsText.ParseInt | index.js:125 | `parseInt` without a radix: trimming, then the signed reading; its meaning is given by `ParseIntRoundTrip`, `ParseIntOfString`, `ParseIntSkipsWhiteSpace` and `ParseIntNoDigits` |
| JsText.ParseSigned | index.js:125 | an optional '+' or '-' before the unsigned reading, with '-' negating it |
| JsText.ParseMagnitude | index.js:125 | the unsigned reading: a `0x`/`0X` prefix selects hex, then the value of the longest digit run, NaN when the run is empty; `ParseMagnitudeOf` reads a numeral back |
| JsText.ParseIntSkipsWhiteSpace | index.js:125 | leading white space never changes what `parseInt` reads |
| JsText.ParseIntAfterSpace | index.js:125 | `parseInt(" " + String(n))` is n for every integer n: a leading space is skipped |
| JsText.ParseIntOfString | index.js:124-125 | `parseInt` reads n back from `String(n)` followed by any text that does not continue the numeral |
| JsText.ParseIntRoundTrip | index.js:124-125 | `parseInt(String(n)) == n` for every integer n |
| JsText.ParseNonNegative | index.js:125 | `parseInt` of a non-negative decimal numeral gives its value |
| JsText.ParseNegative | index.js:125 | `parseInt` of '-' followed by a numeral gives the negated value |
| JsText.MinusSign | index.js:125 | a minus sign before text whose unsigned reading is m makes `parseInt` give -m |
| JsText.ParseIntStopsAtLetter | index.js:125 | `parseInt("3abc")` is 3 |
| JsText.ParseIntNoDigits | index.js:125 | `parseInt("")` and `parseInt("abc")` are NaN |
| UriComponent.Utf8 | index.js:104-106 | a code point is encoded as 1 to 4 UTF-8 bytes |
| UriComponent.HexDigit | index.js:104-106 | triplet hex digits are unreserved characters: '0'-'9' for values below 10 and upper-case 'A'-'F' above |
| UriComponent.Triplets | index.js:104-106 | each byte becomes a three-character triplet |
| UriComponent.EncodeChar | index.js:104-106 | one character: itself when unreserved, else the triplets of its UTF-8 bytes; `DecodeEncodeChar` reads it back and `EncodeAscii` gives the ASCII case |
| UriComponent.Encode | index.js:104-106 | the encoding uses only unreserved characters and '%', and it leaves unreserved-only text unchanged |
| UriComponent.EncodeAscii | index.js:104-106 | a reserved ASCII character is encoded as '%' and the two upper-case hex digits of its code |
| UriComponent.EncodeExamples | index.js:104-106 | ':', '/', '?', '&', '=', '#' and space are encoded as `%3A`, `%2F`, `%3F`, `%26`, `%3D`, `%23` and `%20` |
| UriComponent.Decode | index.js:104-106 | percent-decoding, the reader that `DecodeEncode` proves inverts `encodeURIComponent` |
| UriComponent.DecodeEscapeOf | index.js:104-106 | the triplets of one character's UTF-8 bytes decode to exactly that character and consume all of them |
| UriComponent.DecodeEncodeChar | index.js:104-106 | decoding an encoded character followed by more text yields the character and then the decoding of the rest |
| UriComponent.DecodeEncode | index.js:104-106 | percent-decoding the encoding of any string gives the string back |
| Callback.Token | index.js:42 | the template literal `KIND::${n}`; `TokenRoundTrip` reads it back |
| Callback.Kind | index.js:124 | `data.split("::")[0]`; `KindIs` says which data has a given kind |
| Callback.Suffix | index.js:125 | `data.split("::")[1]`, undefined when there is no separator; `TokenRoundTrip` and `BarePage` |
| Callback.SuffixValue | index.js:125 | `parseInt` of the suffix, NaN for an undefined suffix; `TokenRoundTrip` and `UnparsablePage` |
| Callback.TokenRoundTrip | index.js:124-125 | a token `KIND::n` reads back with kind KIND, suffix `String(n)` and number n |
| Callback.KindIs | index.js:124 | the kind is KIND exactly when the data is KIND or starts with `KIND::` |
| Callback.KindsAvoidSeparator | index.js:42 | the kind names `PAGE` and `PLAY` hold no ':', so tokens built from them decode |
| Callback.KindExamples | index.js:124 | `PAGEX::2` is neither PAGE nor PLAY, and no data is both |
| Callback.UnparsablePage | index.js:124-125 | `PAGE::` followed by a suffix that contains no `::` and that `parseInt` cannot read (such as `abc` or `a:b`) is of kind PAGE with page number NaN |
| Callback.BarePage | index.js:124-125 | a bare `PAGE` is of kind PAGE, its suffix is `undefined`, and its page number is NaN |
| Catalog.EpisodeLabel | index.js:41 | the label `${episode} :: ${shortTitle}`; `EpisodeRowDecodes` states it |
| Catalog.EpisodeRow | index.js:39-44 | the one-button row of an episode; `EpisodeRowDecodes` reads its button back |
| Catalog.EpisodeRows | index.js:38-45 | one row per episode, in the order of `result`, each that episode's row |
| Catalog.EpisodeRowDecodes | index.js:39-44 | an episode row has one button, labelled `<episode> :: <shortTitle>`, whose data reads back as PLAY with the episode id |
| Catalog.TotalPages | index.js:46 | the page count is the least number of 10-entry pages that hold `totalAsset` entries |
| Catalog.TotalPagesExamples | index.js:46 | 0, 95, 100 and 101 assets give 0, 10, 10 and 11 pages |
| Catalog.PreviousButton | index.js:134-137 | the Previous button, with data `PAGE::${page - 1}`; `NavRowTokens` and `NavRowTargets` read it back |
| Catalog.NextButton | index.js:140-143 | the Next button, with data `PAGE::${page + 1}`; `NavRowTokens` and `NavRowTargets` read it back |
| Catalog.NavRow | index.js:132-144 | the navigation row the handler pushes, tested by `ShowsPrevious` (`page - 1 > 0`) and `ShowsNext` (`page + 1 <= totalpage`), both false for a NaN page; `NavRowShape`, `NavRowTokens` and `NavRowTargets` state which buttons appear and where they lead |
| Catalog.KeyboardFor | index.js:131-145 | the reply keyboard; `BuildKeyboard` proves the handler's pushes build it and `NaNPageKeyboard` covers a NaN page |
| Catalog.NavRowShape | index.js:133-145 | the row holds only Previous and Next buttons; Previous appears iff page > 1, Next iff page + 1 <= totalpage, Previous comes first; the row is empty exactly when neither applies, and always for a NaN page |
| Catalog.NavRowTokens | index.js:133-144 | each navigation button's data is the token `PAGE::${page - 1}` for Previous and `PAGE::${page + 1}` for Next |
| Catalog.NavRowTargets | index.js:133-144 | each navigation button reads back as PAGE with page - 1 for Previous and page + 1 for Next |
| Catalog.NavRowExamples | index.js:133-144 | navigation rows for the first, last and middle of 5 pages, for 1 page and for 0 pages, and for NaN, including page 0 giving Next to `PAGE::1` |
| Catalog.NaNPageKeyboard | index.js:133-145 | with a NaN page the keyboard is the episode rows alone |
| Catalog.BuildKeyboard | index.js:131-145 | the keyboard built with pushes is the episode rows plus the navigation row when it is not empty, and the episode rows are unchanged |
| Stream.PreviewLink | index.js:104-106 | the stream-test link; `LinkRoundTrip` reads its parameters back |
| Stream.StreamUrl | index.js:102-107 | the result carries the first entry's URLs, and the link's `manifest` and `license` parameters decode to them, with `drm=widevine` and `format=dash` |
| Stream.FirstEntryOnly | index.js:103 | entries after the first do not affect the result |
| Stream.EncodedAvoids | index.js:104-106 | the encoded URLs hold no '&' or '#', so they cannot break the query |
| Stream.QueryParam | index.js:104-106 | the URL-query reader: the decoded value of a name's first pair; `ReadQuery` and `LinkRoundTrip` are its partner lemmas |
| Stream.ReadQuery | index.js:104-106 | in any URL of the form address, '?', then `name=value` pairs joined by '&' with no delimiter inside them, a name reads back as the decoded value of its first pair |
| Stream.LinkAsQuery | index.js:104-106 | the link's template is the tool address, '?', and the pairs `format=dash`, `manifest=`, `drm=widevine`, `license=` joined by '&' |
| Stream.ReadLink | index.js:104-106 | each of the four parameters of the link reads back as the decoding of its value |
| Stream.LinkRoundTrip | index.js:104-106 | reading the link's query gives back the manifest URL and the license URL, with `drm=widevine` and `format=dash` |
| Webhook.Truthy | index.js:124 | `data &&`: present and not the empty string; `DispatchNoData` and `DispatchUnknown` |
| Webhook.IsKind | index.js:124 | the test `data && data.split("::")[0] === kind`, also made at lines 129 and 156; `IsKindMeans` says which data passes it |
| Webhook.IsKindMeans | index.js:124-156 | for a kind without ':', the test holds exactly when the data is present and is the kind itself or starts with `kind + "::"` |
| Webhook.ChatId | index.js:127 | `chat?.id`, undefined without a chat; `Dispatch` sends every reply there |
| Webhook.EffectiveMessage | index.js:119-121 | the callback query's message when there is a callback query, else the update's own; `CallbackQueryWins` |
| Webhook.CallbackData | index.js:122 | the callback data, undefined without a callback query; `DispatchNoData` |
| Webhook.RequestedPage | index.js:118-125 | page 1 unless the data is a PAGE token, then its parsed number; `DispatchPageToken` and `DispatchMalformedPage` |
| Webhook.Greeting | index.js:130 | `Welcome ${chat?.first_name} ${chat?.last_name}`, where `Shown` writes a missing field (or a missing chat) as `undefined`; `DispatchStart` |
| Webhook.WantsCatalog | index.js:129 | `text === "/start"` or PAGE data; `Dispatch` gives a catalog reply exactly when it holds |
| Webhook.Dispatch | index.js:115-172 | one reply per test that fires, all to the chat of the message read; a catalog reply comes first exactly for "/start" or PAGE data, with the greeting and the requested page; a playback reply comes last exactly for PLAY data, with the token's parsed id |
| Webhook.HandleUpdate | index.js:115-172 | the handler, with its reassigned locals and pushes, sends exactly the messages its dispatch decides, in order |
| Webhook.DispatchStart | index.js:129 | a "/start" message asks for catalog page 1 and nothing else |
| Webhook.DispatchOtherText | index.js:129-156 | any other plain message gets no reply |
| Webhook.DispatchPageToken | index.js:124-129 | pressing `PAGE::n` asks for catalog page n and nothing else |
| Webhook.DispatchPlayToken | index.js:156-159 | pressing `PLAY::n` asks for the playback of n, after a catalog reply only when the pressed message's own text is "/start" |
| Webhook.DispatchMalformedPage | index.js:124-131 | a PAGE token whose suffix contains no `::` and does not parse, such as `PAGE::abc` or `PAGE::a:b`, gets exactly one catalog reply, for page NaN, whatever the message text |
| Webhook.DispatchBarePage | index.js:124-131 | a bare `PAGE` gets exactly one catalog reply, for page NaN, whatever the message text |
| Webhook.DispatchUnknown | index.js:124-156 | when the message text is not "/start", empty data or data of another kind gets no reply |
| Webhook.DispatchNoData | index.js:120-129 | a press without callback data gets no reply unless the message text is "/start", and then the first catalog page |
| Webhook.CallbackQueryWins | index.js:119-122 | when an update carries both a message and a callback query, the update's own message is never read |
| Webhook.EpisodeButtonPress | index.js:156-159 | pressing the button of row i of a catalog keyboard asks for the playback of episode i's id |
| Webhook.NavButtonPress | index.js:133-144 | pressing a navigation button asks for the neighbouring catalog page and nothing else |
| Webhook.RetryText | index.js:166-169 | "Try after few seconds", then `[Error] ` and the message, or `undefined`; `PlayFailureSent` |
| Webhook.Perform | index.js:130-170 | the message sent for one action; `CatalogReplySent`, `PlayReplySent` and `PlayFailureSent` state it |
| Webhook.Replies | index.js:127-172 | every message sent for an update, in order; `HandleUpdate`, `RepliesInOrder` and `RepliesFollowDispatch` |
| Webhook.CatalogReplySent | index.js:130-153 | the catalog reply is the greeting with exactly the keyboard for the requested page and its catalog answer, whose leading rows are the episode rows |
| Webhook.PlayReplySent | index.js:158-164 | a successful playback reply is the stream-test link for the first entry, whose `manifest` and `license` read back as its URLs, with `drm=widevine` and `format=dash` |
| Webhook.PlayFailureSent | index.js:165-170 | a failed playback reply is "Try after few seconds", then "[Error] " and the failure message |
| Webhook.RepliesInOrder | index.js:129-172 | the replies are the catalog reply's message, if any, followed by the playback reply's, if any |
| Webhook.RepliesFollowDispatch | index.js:127-172 | one message is sent per action, each to the chat of the message read |

## Left out

- The Express server, its routes and `app.listen`, the health route and the `/getEpisodes` debug route (index.js:7-10, 24-26, 110-113, 177-180). These are server plumbing.
- `dotenv`, the `process.env` lookups and the `setWebhook` call at start-up (index.js:5, 12-22). These are configuration and start-up I/O.
- The axios requests. The catalog GET (index.js:29-37) is the `catalog` input. The guest-token and playback POSTs (index.js:50-101) are the `playback` input. Their constant request bodies carry no logic. `sendMessage` is the emitted `SendMessage` value, and the empty response `res.send()` is not modelled.
- async/await ordering and concurrent deliveries. Deliveries share no state.
- The URIError that `encodeURIComponent` throws on a lone surrogate. It cannot arise here, because a Dafny `char` is a Unicode scalar value.
- Catalog.TotalPages: models the integer ceiling of `totalAsset / 10` over non-negative counts, not IEEE division.
- JsText.IntToString: models `String(n)` for integers only. It does not model the exponent form that JavaScript uses from 1e21 on.
- JsText.ParseIntOfString: numbers are unbounded integers. `parseInt` rounding very long digit strings to the nearest double is not modelled.
- Catalog.EpisodeRows: `episode` and `id` are integers and `shortTitle` is a string. The template literals' text for other JSON values is not modelled.
- Webhook.HandleUpdate: requires the message read to be present, because destructuring an undefined `message` throws (index.js:126).
- Webhook.HandleUpdate: requires a successful playback answer to have a non-empty `playbackUrls` list. On an empty list, `playbackUrls[0]` throws, and the `catch` then throws again reading `error.response` (index.js:103, 166).
- Stream.StreamUrl: a playback entry's `url` and `licenseurl` are strings. An entry that lacks one would be encoded as the text "undefined" (index.js:103-106), and that case is not modelled.
- Webhook.HandleUpdate: a failed playback is modelled only as an error response that carries a message, or leaves it undefined. An error without `response`, or without `response.data`, throws inside the `catch` (index.js:166).
- Webhook.HandleUpdate: the catalog service is total. A failed catalog fetch or a failed `sendMessage` ends the request with an unhandled rejection, and that is not modelled. A failed `sendMessage` of the link would land in the `catch`, and that is not modelled either.
