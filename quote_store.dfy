/** The quote store of `src/store/quoteStore.js`: one record of five fields,
    changed by `fetchQuote` in two steps and read by `getTweetUrl`.

    `fetchQuote` awaits twice, on the request and on `response.json()`, and
    no `set` runs between the two awaits, so it splits into two steps. `StartFetch` is the
    first `set`, made before the request is sent; `SettleFetch` is the second
    `set`, made on the success branch or the fallback branch once the request
    has ended. What the network and JSON parsing produced is the parameter
    `outcome`, and the two `Math.random()` draws are the index parameters
    `fallbackDraw` and `colorDraw`. */
module QuoteStore {
  import opened Wrappers
  import opened Constants
  import opened Uri
  import Helpers

  /** The accent colour before the first quote arrives. */
  const INITIAL_COLOR: string := "#4A90E2"

  /** The one message the fallback path shows. */
  const OFFLINE_MESSAGE: string := "Using offline quote due to network error"

  /** The five fields of the store; `error` is `None` for `null`. */
  datatype QuoteState = QuoteState(
    quoteText: string,
    quoteAuthor: string,
    backgroundColor: string,
    loading: bool,
    error: Option<string>)

  /** How the request ended. A field of the parsed body is `None` when it is
      missing, `null` or `undefined`. */
  datatype FetchOutcome =
    | NetworkError    // `fetch` itself rejected
    | HttpNotOk       // a response whose `ok` is false
    | ParseError      // `response.json()` rejected
    | Ok(quote: Option<string>, author: Option<string>)

  /** The guard `data?.quote && data?.author` of the success branch: both
      fields present and, being strings, truthy only when non-empty. */
  predicate IsUsable(outcome: FetchOutcome)
    ensures IsUsable(outcome) ==> outcome.Ok?
    ensures outcome.Ok? && (outcome.quote == Some("") || outcome.author == Some("")) ==> !IsUsable(outcome)
  {
    && outcome.Ok?
    && outcome.quote.Some? && outcome.quote.value != ""
    && outcome.author.Some? && outcome.author.value != ""
  }

  /** A state with a quote to show: text and author non-empty and the accent
      colour taken from the palette. */
  predicate HasQuote(s: QuoteState) {
    s.quoteText != "" && s.quoteAuthor != "" && s.backgroundColor in COLORS
  }

  /** The state the store is created with. Its colour is not a palette colour,
      so it has no quote to show until a fetch settles. */
  function Initial(): (s: QuoteState)
    ensures s.quoteText == "" && s.quoteAuthor == ""
    ensures !s.loading && s.error == None
    ensures s.backgroundColor !in COLORS && !HasQuote(s)
  {
    QuoteState("", "", INITIAL_COLOR, false, None)
  }

  /** The first step of `fetchQuote`: loading, any earlier error cleared, the
      quote, author and colour still those of the previous fetch. */
  function Started(s: QuoteState): (r: QuoteState)
    ensures r.loading && r.error == None
    ensures r.quoteText == s.quoteText && r.quoteAuthor == s.quoteAuthor
    ensures r.backgroundColor == s.backgroundColor
    ensures HasQuote(r) == HasQuote(s)
  {
    s.(loading := true, error := None)
  }

  /** The second step of `fetchQuote`. Every field is overwritten, so the
      result depends on the outcome and the draws only. Text and author come
      together either from the response, when it is usable, or from one
      fallback entry; the error is set exactly on the fallback path. */
  function Settled(outcome: FetchOutcome, fallbackDraw: nat, colorDraw: nat): (r: QuoteState)
    requires fallbackDraw < |FALLBACK_QUOTES| && colorDraw < |COLORS|
    ensures !r.loading && HasQuote(r)
    ensures r.error != None <==> !IsUsable(outcome)
    ensures IsUsable(outcome) ==>
      r.quoteText == outcome.quote.value && r.quoteAuthor == outcome.author.value && r.error == None
    ensures !IsUsable(outcome) ==>
      FallbackQuote(r.quoteText, r.quoteAuthor) in FALLBACK_QUOTES && r.error == Some(OFFLINE_MESSAGE)
  {
    FallbackQuotesComplete();
    var color := Helpers.GetRandomColor(COLORS, colorDraw);
    if IsUsable(outcome) then
      QuoteState(outcome.quote.value, outcome.author.value, color, false, None)
    else
      var fallback := FALLBACK_QUOTES[fallbackDraw];
      QuoteState(fallback.quote, fallback.author, color, false, Some(OFFLINE_MESSAGE))
  }

  /** No partial commit: when the response is not usable, nothing of it
      reaches the state; any two unusable outcomes settle alike. */
  lemma UnusableOutcomesSettleAlike(outcome: FetchOutcome, outcome': FetchOutcome, fallbackDraw: nat, colorDraw: nat)
    requires fallbackDraw < |FALLBACK_QUOTES| && colorDraw < |COLORS|
    requires !IsUsable(outcome) && !IsUsable(outcome')
    ensures Settled(outcome, fallbackDraw, colorDraw) == Settled(outcome', fallbackDraw, colorDraw)
    ensures Settled(outcome, fallbackDraw, colorDraw) == Settled(NetworkError, fallbackDraw, colorDraw)
  {
  }

  /** A parsed body with a missing or empty field takes the fallback path:
      the success commit needs both fields. */
  lemma MissingFieldFallsBack(quote: Option<string>, author: Option<string>, fallbackDraw: nat, colorDraw: nat)
    requires fallbackDraw < |FALLBACK_QUOTES| && colorDraw < |COLORS|
    requires quote == None || quote == Some("") || author == None || author == Some("")
    ensures Settled(Ok(quote, author), fallbackDraw, colorDraw).error == Some(OFFLINE_MESSAGE)
  {
  }

  /** The share link of a state: `buildTweetUrl(quoteText, quoteAuthor)`. */
  function TweetUrl(s: QuoteState): (url: string)
    ensures |Helpers.TWEET_INTENT| <= |url| && url[..|Helpers.TWEET_INTENT|] == Helpers.TWEET_INTENT
    ensures DecodeURIComponent(url[|Helpers.TWEET_INTENT|..]) == Some(Helpers.TweetText(s.quoteText, s.quoteAuthor))
  {
    Helpers.BuildTweetUrl(s.quoteText, s.quoteAuthor)
  }

  /** The store itself: the record whose fields `set` overwrites in place. */
  class Store {
    var quoteText: string
    var quoteAuthor: string
    var backgroundColor: string
    var loading: bool
    var error: Option<string>

    /** The fields, as one value. */
    function State(): QuoteState
      reads this
    {
      QuoteState(quoteText, quoteAuthor, backgroundColor, loading, error)
    }

    constructor ()
      ensures State() == Initial()
    {
      quoteText := "";
      quoteAuthor := "";
      backgroundColor := INITIAL_COLOR;
      loading := false;
      error := None;
    }

    /** `set({ loading: true, error: null })`. */
    method StartFetch()
      modifies this
      ensures State() == Started(old(State()))
    {
      loading := true;
      error := None;
    }

    /** The success `set` or the fallback `set`, whichever the outcome selects. */
    method SettleFetch(outcome: FetchOutcome, fallbackDraw: nat, colorDraw: nat)
      requires fallbackDraw < |FALLBACK_QUOTES| && colorDraw < |COLORS|
      modifies this
      ensures State() == Settled(outcome, fallbackDraw, colorDraw)
      ensures !loading && HasQuote(State())
      ensures error != None <==> !IsUsable(outcome)
    {
      if IsUsable(outcome) {
        quoteText := outcome.quote.value;
        quoteAuthor := outcome.author.value;
        backgroundColor := Helpers.GetRandomColor(COLORS, colorDraw);
        loading := false;
        error := None;
      } else {
        var fallback := FALLBACK_QUOTES[fallbackDraw];
        quoteText := fallback.quote;
        quoteAuthor := fallback.author;
        backgroundColor := Helpers.GetRandomColor(COLORS, colorDraw);
        loading := false;
        error := Some(OFFLINE_MESSAGE);
      }
    }

    /** One whole `fetchQuote` call, with no other action between its two steps. */
    method FetchQuote(outcome: FetchOutcome, fallbackDraw: nat, colorDraw: nat)
      requires fallbackDraw < |FALLBACK_QUOTES| && colorDraw < |COLORS|
      modifies this
      ensures State() == Settled(outcome, fallbackDraw, colorDraw)
    {
      StartFetch();
      SettleFetch(outcome, fallbackDraw, colorDraw);
    }

    /** `getTweetUrl()`: reads the current quote and author and changes nothing;
      the link's `text` parameter decodes to exactly their share text. */
    method GetTweetUrl() returns (url: string)
      ensures url == TweetUrl(State())
      ensures DecodeURIComponent(url[|Helpers.TWEET_INTENT|..]) == Some(Helpers.TweetText(quoteText, quoteAuthor))
    {
      url := Helpers.BuildTweetUrl(quoteText, quoteAuthor);
    }
  }
}
