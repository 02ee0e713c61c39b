/** The parts of `src/App.jsx` that act on the store or derive text from it:
    the guarded refresh handler, the error dismissal, the author line, the
    share text and the tweet link. Rendering is not modelled. */
module App {
  import opened Wrappers
  import opened Constants
  import opened Uri
  import opened QuoteStore
  import Helpers

  /** `handleNewQuote`: starts a fetch only when none is loading; a click
      while loading changes nothing. `started` says whether it fetched. */
  method HandleNewQuote(store: Store) returns (started: bool)
    modifies store
    ensures started <==> !old(store.loading)
    ensures store.State() == if started then Started(old(store.State())) else old(store.State())
  {
    started := !store.loading;
    if started {
      store.StartFetch();
    }
  }

  /** The partial update `setState({ error: null })`: the error is cleared
      and, the update being merged, the other four fields are kept. */
  function Dismissed(s: QuoteState): (r: QuoteState)
    ensures r.error == None
    ensures r.quoteText == s.quoteText && r.quoteAuthor == s.quoteAuthor
    ensures r.backgroundColor == s.backgroundColor && r.loading == s.loading
    ensures s.error == None ==> r == s
  {
    s.(error := None)
  }

  /** `dismissError`. */
  method DismissError(store: Store)
    modifies store
    ensures store.State() == Dismissed(old(store.State()))
  {
    store.error := None;
  }

  /** Dismissing twice is dismissing once. */
  lemma DismissIdempotent(s: QuoteState)
    ensures Dismissed(Dismissed(s)) == Dismissed(s)
  {
  }

  /** The author line: empty while loading, otherwise an em dash, a space and the author. */
  function AuthorLine(s: QuoteState): (line: string)
    ensures line == "" <==> s.loading
    ensures !s.loading ==> |line| == |s.quoteAuthor| + 2 && line[..2] == "— " && line[2..] == s.quoteAuthor
  {
    if s.loading then "" else "— " + s.quoteAuthor
  }

  /** The text handed to `navigator.share` or copied to the clipboard. */
  function ShareText(s: QuoteState): (text: string)
    ensures DecodeURIComponent(TweetUrl(s)[|Helpers.TWEET_INTENT|..]) == Some(text)
  {
    "\"" + s.quoteText + "\" - " + s.quoteAuthor
  }

  /** The shared text and the tweet's text are the same string. */
  lemma ShareTextIsTweetText(s: QuoteState)
    ensures ShareText(s) == Helpers.TweetText(s.quoteText, s.quoteAuthor)
  {
  }

  /** The tweet link's `href`, read from the store when rendering; its `text`
      parameter decodes to exactly the text the share button shares. */
  method TweetHref(store: Store) returns (href: string)
    ensures href == TweetUrl(store.State())
    ensures DecodeURIComponent(href[|Helpers.TWEET_INTENT|..]) == Some(ShareText(store.State()))
  {
    href := store.GetTweetUrl();
  }

  // ------------------------------------------------------------ interaction traces

  /** What can happen to the store while the page is open. */
  datatype Event =
    | NewQuoteClicked                                               // `handleNewQuote`
    | FetchSettled(outcome: FetchOutcome, fallbackDraw: nat, colorDraw: nat)  // a request ends
    | ErrorDismissed                                                // `dismissError`

  predicate IsValidEvent(e: Event) {
    e.FetchSettled? ==> e.fallbackDraw < |FALLBACK_QUOTES| && e.colorDraw < |COLORS|
  }

  /** The state after one event. */
  function Step(s: QuoteState, e: Event): (r: QuoteState)
    requires IsValidEvent(e)
    ensures HasQuote(s) ==> HasQuote(r)
    ensures e.FetchSettled? ==> !r.loading && HasQuote(r)
    ensures e.NewQuoteClicked? ==> (r == s <==> s.loading)
    ensures e.ErrorDismissed? ==> r.error == None
  {
    match e
    case NewQuoteClicked => if s.loading then s else Started(s)
    case FetchSettled(outcome, fallbackDraw, colorDraw) => Settled(outcome, fallbackDraw, colorDraw)
    case ErrorDismissed => Dismissed(s)
  }

  /** The state after a sequence of events. */
  function Run(s: QuoteState, events: seq<Event>): QuoteState
    requires forall i :: 0 <= i < |events| ==> IsValidEvent(events[i])
    decreases |events|
  {
    if events == [] then s else Run(Step(s, events[0]), events[1..])
  }

  /** Once the store has a quote to show it keeps one: no event empties the
      text or the author or takes the colour out of the palette. */
  lemma {:induction false} RunKeepsQuote(s: QuoteState, events: seq<Event>)
    requires forall i :: 0 <= i < |events| ==> IsValidEvent(events[i])
    requires HasQuote(s)
    ensures HasQuote(Run(s, events))
    decreases |events|
  {
    if events != [] {
      RunKeepsQuote(Step(s, events[0]), events[1..]);
    }
  }

  /** After any sequence of events in which some fetch has settled, the
      colour is a palette colour and the quote and author are non-empty,
      whatever the outcomes and draws were. */
  lemma {:induction false} QuoteShownAfterFirstSettle(s: QuoteState, events: seq<Event>, k: nat)
    requires forall i :: 0 <= i < |events| ==> IsValidEvent(events[i])
    requires k < |events| && events[k].FetchSettled?
    ensures HasQuote(Run(s, events))
    decreases |events|
  {
    if k == 0 {
      RunKeepsQuote(Step(s, events[0]), events[1..]);
    } else {
      QuoteShownAfterFirstSettle(Step(s, events[0]), events[1..], k - 1);
    }
  }

  /** With the guard, clicking while loading never restarts a fetch: a run of
      clicks from a loading state leaves it as it is. */
  lemma {:induction false} ClicksWhileLoadingChangeNothing(s: QuoteState, n: nat)
    requires s.loading
    ensures Run(s, seq(n, _ => NewQuoteClicked)) == s
  {
    if n > 0 {
      var clicks := seq(n, _ => NewQuoteClicked);
      assert clicks[1..] == seq(n - 1, _ => NewQuoteClicked);
      ClicksWhileLoadingChangeNothing(s, n - 1);
    }
  }
}
