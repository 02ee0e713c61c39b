# Quote widget store, in Dafny

A model of the core of a single-page quote widget: the quote store (a record
of quote text, author, accent colour, loading flag and error message), the two
helpers it uses (a random palette pick and the tweet-link builder with its
`encodeURIComponent` call), the constant palette and fallback-quote tables, and
the two handlers of the view that act on the store.

- `wrappers.dfy`: `Option`, standing for `null`/`undefined` and for a thrown `URIError`.
- `constants.dfy` (module `Constants`): `COLORS` and `FALLBACK_QUOTES` as constant sequences, with lemmas about their contents.
- `uri.dfy` (module `Uri`): `encodeURIComponent` as ECMA-262 section 19.2.6 defines it (UTF-8 octets, upper-case `%XY` escapes, the unreserved set `A-Z a-z 0-9 - _ . ! ~ * ' ( )`), and `decodeURIComponent` as its partner, so that the round trip and the output alphabet can be proved.
- `helpers.dfy` (module `Helpers`): `getRandomColor` with the random draw as an index parameter, and `buildTweetUrl`.
- `quote_store.dfy` (module `QuoteStore`): the state as a value (`QuoteState`) with the transition functions `Initial`, `Started` and `Settled`, and the store as a class `Store` whose methods overwrite its fields as the two `set` calls of `fetchQuote` do. `fetchQuote` has two awaits (`fetch` and `response.json()`), and no `set` runs between them, so it splits into two steps: `StartFetch` is `set({loading: true, error: null})`, `SettleFetch(outcome, fallbackDraw, colorDraw)` is the success or fallback `set`. The outcome of the request is the datatype `FetchOutcome = NetworkError | HttpNotOk | ParseError | Ok(quote, author)`; the two `Math.random()` draws are indices bounded by the table lengths.
- `app.dfy` (module `App`): `handleNewQuote` and `dismissError` as methods on a `Store`, the author line, the share text and the tweet link, and event traces (`Step`, `Run`) over which the "a quote is always shown once one has arrived" invariant is proved.

Strings are Dafny strings, sequences of Unicode scalar values; encoding works
on code points and their UTF-8 octets, which is what `encodeURIComponent` does
on a well-formed JavaScript string.

The initial colour `#4A90E2` is not a palette colour, so "the colour is a
palette colour" holds only once a fetch has settled (`Initial`,
`QuoteShownAfterFirstSettle`). `getRandomColor` on an empty array returns
`undefined`, which the model excludes by its precondition.

## Model

| member | source | states |
|---|---|---|
| `Constants.PaletteWellFormed` | src/utils/constants.js:1-4 | the palette has exactly 10 entries, each `#` and six upper-case hex digits |
| `Constants.PaletteDistinct` | src/utils/constants.js:2-3 | no palette colour occurs twice |
| `Constants.FallbackQuotesComplete` | src/utils/constants.js:6-10 | there are 3 fallback entries, each with a non-empty quote and a non-empty author |
| `Helpers.GetRandomColor` | src/utils/helpers.js:1-3 | for any draw in `[0, length)` the result is a member of the given colours |
| `Helpers.GetRandomColorReachesAll` | src/utils/helpers.js:1-3 | every colour of the array is the result of some draw |
| `Helpers.TweetText` | src/utils/helpers.js:6 | the share text is an opening `"`, the quote, `" - `, then the author, at those exact positions |
| `Helpers.BuildTweetUrl` | src/utils/helpers.js:5-8 | the link is the intent prefix followed by a suffix that uses only the encoder's alphabet and decodes to exactly `"quote" - author` |
| `Helpers.TweetTextOfEmpty` | src/utils/helpers.js:6-7 | with empty quote and author the share text is `"" - ` and the link still decodes to it |
| `Helpers.BuildTweetUrlInjective` | src/utils/helpers.js:5-8 | two links are equal if and only if their share texts are (deterministic, and nothing is lost) |
| `Helpers.EncodeTweetText` | src/utils/helpers.js:6-7 | the encoded share text is `%22`, the encoded quote, `%22%20-%20`, the encoded author |
| `Helpers.HelloWorldLink` | src/utils/helpers.js:5-8 | `buildTweetUrl("Hello", "World")` is the prefix followed by `%22Hello%22%20-%20World` |
| `Uri.EncodeURIComponent` | src/utils/helpers.js:7 | every output character is unreserved or `%`, and every `%` is followed by two upper-case hex digits |
| `Uri.EncodedHasNoDelimiters` | src/utils/helpers.js:7 | no `&`, `#`, `=`, `+`, space or `"` appears in an encoded string |
| `Uri.DecodeEncode` | src/utils/helpers.js:7 | decoding an encoded string gives it back exactly, for every string |
| `Uri.EncodeInjective` | src/utils/helpers.js:7 | two strings have the same encoding if and only if they are equal |
| `Uri.EncodeConcat` | src/utils/helpers.js:7 | encoding a concatenation is concatenating the encodings |
| `Uri.EncodeUnreserved` | src/utils/helpers.js:7 | a string of unreserved characters encodes to itself |
| `QuoteStore.Initial` | src/store/quoteStore.js:7-11 | empty text and author, not loading, no error, and a colour outside the palette, so no quote to show yet |
| `QuoteStore.Started` | src/store/quoteStore.js:15 | loading on and error cleared whatever it was; text, author and colour unchanged |
| `QuoteStore.IsUsable` | src/store/quoteStore.js:26 | the success guard `data?.quote && data?.author`: only a parsed body can pass it, and a body with an empty quote or author never does |
| `QuoteStore.Settled` | src/store/quoteStore.js:26-48 | never loading, colour in the palette, text and author non-empty; error set iff the response was unusable; text and author both from the response, or both from one fallback entry with the fixed offline message |
| `QuoteStore.UnusableOutcomesSettleAlike` | src/store/quoteStore.js:20-21 | network error, non-ok status, parse error and a body with a missing field all settle to the same state: nothing of the response is committed |
| `QuoteStore.MissingFieldFallsBack` | src/store/quoteStore.js:26-36 | a body whose quote or author is missing or empty takes the fallback path |
| `QuoteStore.TweetUrl` | src/store/quoteStore.js:53-56 | the state's share link decodes to the share text of its current quote and author |
| `QuoteStore.Store.constructor` | src/store/quoteStore.js:7-11 | a new store holds the initial state |
| `QuoteStore.Store.StartFetch` | src/store/quoteStore.js:15 | the store's new state is `Started` of its old state |
| `QuoteStore.Store.SettleFetch` | src/store/quoteStore.js:26-48 | the store's new state is `Settled(outcome, draws)`: not loading, with a quote to show, error set iff fallback |
| `QuoteStore.Store.FetchQuote` | src/store/quoteStore.js:14-50 | a whole uninterrupted fetch leaves the store in `Settled(outcome, draws)` |
| `QuoteStore.Store.GetTweetUrl` | src/store/quoteStore.js:53-56 | returns the link of the current quote and author, changes nothing, and the link decodes to their share text |
| `App.HandleNewQuote` | src/App.jsx:22-26 | starts a fetch exactly when not loading; while loading the store is unchanged |
| `App.Dismissed` | src/App.jsx:28-30 | error cleared, the other four fields kept; a no-op when there is no error |
| `App.DismissError` | src/App.jsx:28-30 | the store's new state is `Dismissed` of its old state |
| `App.DismissIdempotent` | src/App.jsx:29 | dismissing twice is the same as dismissing once |
| `App.AuthorLine` | src/App.jsx:69 | empty exactly while loading, otherwise an em dash and a space before the author |
| `App.ShareText` | src/App.jsx:105-109 | the shared or copied text is exactly what the tweet link of the same state decodes to |
| `App.ShareTextIsTweetText` | src/App.jsx:105-109 | the shared or copied text equals the un-encoded text of the tweet link |
| `App.TweetHref` | src/App.jsx:86 | the link's href is the store's tweet link, whose text parameter decodes to the share text |
| `App.Step` | src/App.jsx:22-30 | one event: a settle leaves the state not loading with a quote to show, a click changes the state exactly when nothing is loading, a dismissal clears the error, and no event takes away a quote to show |
| `App.RunKeepsQuote` | src/store/quoteStore.js:26-48 | once the state has a quote to show, no sequence of clicks, settles and dismissals takes it away |
| `App.QuoteShownAfterFirstSettle` | src/store/quoteStore.js:30-31 | after any event sequence containing a settled fetch the colour is in the palette and text and author are non-empty |
| `App.ClicksWhileLoadingChangeNothing` | src/App.jsx:22-26 | any number of clicks while a fetch is loading leave the state as it is |

## Left out

- The request itself, `response.ok` and `response.json()` (src/store/quoteStore.js:18-24): network I/O and JSON parsing are replaced by the `FetchOutcome` parameter.
- JavaScript truthiness of `data?.quote` and `data?.author` is modelled for string fields only (present and non-empty); a body whose field is a truthy non-string, such as a number, would be committed as it is by the source and is not represented.
- `Math.random()` and `Math.floor` (src/store/quoteStore.js:41, src/utils/helpers.js:2): the draws are index parameters within the table bounds; uniformity is not modelled.
- `Helpers.GetRandomColor`: on an empty array the source returns `undefined`; the model requires a non-empty array via the bounded draw.
- Overlapping `fetchQuote` calls and their last-write-wins order: asynchronous interleaving is not modelled; a settle in an event trace may follow any state, which covers the invariants proved but not the order of two in-flight requests.
- The fetch on mount (src/App.jsx:18-20), which is not guarded by `loading`.
- `console.error` (src/store/quoteStore.js:38), the zustand store machinery (a `set` is a partial record update), React rendering, and the components `LoadingSpinner` and `ErrorNotification`, which are markup only.
- `navigator.share`, `navigator.clipboard` and `alert` (src/App.jsx:102-110): browser APIs; only the text they receive is modelled.
- A lone UTF-16 surrogate in the quote or author (a JSON body can carry one) makes `encodeURIComponent` throw `URIError`, so `getTweetUrl` would throw while rendering; strings here are sequences of Unicode scalar values, so this case is not represented.
- `Uri.DecodeURIComponent` is not called by the source; it is the partner against which the encoder's round trip is proved.
