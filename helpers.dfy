/** The two helpers of `src/utils/helpers.js`. */
module Helpers {
  import opened Wrappers
  import opened Uri

  /** `getRandomColor(colors)`: the element at a uniformly drawn index.
      `draw` is the value of `Math.floor(Math.random() * colors.length)`,
      which lies in `[0, |colors|)`. */
  function GetRandomColor(colors: seq<string>, draw: nat): (color: string)
    requires draw < |colors|
    ensures color in colors
  {
    colors[draw]
  }

  /** Every palette entry is a possible result of `GetRandomColor`. */
  lemma GetRandomColorReachesAll(colors: seq<string>, color: string)
    requires color in colors
    ensures exists draw :: 0 <= draw < |colors| && GetRandomColor(colors, draw) == color
  {
    var draw :| 0 <= draw < |colors| && colors[draw] == color;
    assert GetRandomColor(colors, draw) == color;
  }

  /** The fixed start of every share link; the `text` parameter follows it. */
  const TWEET_INTENT: string := "https://twitter.com/intent/tweet?text="

  /** The text to share, before encoding: the quote in double quotes, ` - `, the author. */
  function TweetText(quote: string, author: string): (text: string)
    ensures |text| == |quote| + |author| + 5
    ensures text[..1] == "\"" && text[1..|quote| + 1] == quote
    ensures text[|quote| + 1..|quote| + 5] == "\" - " && text[|quote| + 5..] == author
  {
    var mark, separator := "\"", "\" - ";
    var opening := mark + quote;
    var head := opening + separator;
    var text := head + author;
    assert text[..|head|] == head && text[|head|..] == author;
    assert head[..|opening|] == opening && head[|opening|..] == separator;
    assert text[..1] == opening[..1] == mark && text[1..|quote| + 1] == opening[1..] == quote;
    assert |opening| == |quote| + 1 && |head| == |quote| + 5;
    assert text[|opening|..|head|] == text[..|head|][|opening|..];
    text
  }

  /** `buildTweetUrl(quote, author)`: the intent prefix followed by the
      percent-encoded share text. The `text` parameter is made of unreserved
      characters and escapes only, so it cannot be cut short by `&` or `#`,
      and decoding it gives back the share text exactly. */
  function BuildTweetUrl(quote: string, author: string): (url: string)
    ensures |TWEET_INTENT| <= |url| && url[..|TWEET_INTENT|] == TWEET_INTENT
    ensures IsWellEscaped(url[|TWEET_INTENT|..])
    ensures DecodeURIComponent(url[|TWEET_INTENT|..]) == Some(TweetText(quote, author))
  {
    var text := TweetText(quote, author);
    DecodeEncode(text);
    TWEET_INTENT + EncodeURIComponent(text)
  }

  /** With nothing to quote the share text is still `"" - `. */
  lemma TweetTextOfEmpty()
    ensures TweetText("", "") == "\"\" - "
    ensures DecodeURIComponent(BuildTweetUrl("", "")[|TWEET_INTENT|..]) == Some("\"\" - ")
  {
  }

  /** Two share links are equal exactly when their share texts are. */
  lemma BuildTweetUrlInjective(quote: string, author: string, quote': string, author': string)
    ensures BuildTweetUrl(quote, author) == BuildTweetUrl(quote', author')
        <==> TweetText(quote, author) == TweetText(quote', author')
  {
    var url, url' := BuildTweetUrl(quote, author), BuildTweetUrl(quote', author');
    if url == url' {
      assert url[|TWEET_INTENT|..] == url'[|TWEET_INTENT|..];
    }
  }

  /** The share text encodes piecewise: the quote marks and the separator
      become fixed escapes, the quote and the author are encoded on their own. */
  lemma EncodeTweetText(quote: string, author: string)
    ensures EncodeURIComponent(TweetText(quote, author))
         == "%22" + EncodeURIComponent(quote) + "%22%20-%20" + EncodeURIComponent(author)
  {
    EscapedCharacters();
    EncodeConcat("\"" + quote + "\" - ", author);
    EncodeConcat("\"" + quote, "\" - ");
    EncodeConcat("\"", quote);
  }

  /** The link for ("Hello", "World"), written out. */
  lemma HelloWorldLink()
    ensures BuildTweetUrl("Hello", "World") == TWEET_INTENT + "%22Hello%22%20-%20World"
  {
    HelloWorldEncoding();
  }

  lemma HelloWorldEncoding()
    ensures EncodeURIComponent(TweetText("Hello", "World")) == "%22Hello%22%20-%20World"
  {
    assert "%22" + "Hello" + "%22%20-%20" + "World" == "%22Hello%22%20-%20World";
    EncodeTweetText("Hello", "World");
    EncodeUnreserved("Hello");
    EncodeUnreserved("World");
  }

  /** The reserved characters of the share text and their escapes. */
  lemma EscapedCharacters()
    ensures EncodeURIComponent("\"") == "%22"
    ensures EncodeURIComponent("\" - ") == "%22%20-%20"
  {
    QuoteMarkEscape();
    SpaceEscape();
    assert "\" - " == "\"" + (" " + ("-" + " "));
    EncodeConcat("-", " ");
    EncodeConcat(" ", "-" + " ");
    EncodeConcat("\"", " " + ("-" + " "));
    EncodeUnreserved("-");
  }

  lemma QuoteMarkEscape()
    ensures EncodeURIComponent("\"") == "%22"
  {
    assert Escape(0x22) == "%22";
    assert EncodeURIComponent("\"") == EncodeChar('"') + EncodeURIComponent([]);
  }

  lemma SpaceEscape()
    ensures EncodeURIComponent(" ") == "%20"
  {
    assert Escape(0x20) == "%20";
    assert EncodeURIComponent(" ") == EncodeChar(' ') + EncodeURIComponent([]);
  }
}
