/** The two read-only tables of `src/utils/constants.js`: the accent-colour
    palette and the offline fallback quotes. */
module Constants {
  import opened Uri

  /** One offline quote with its attribution. */
  datatype FallbackQuote = FallbackQuote(quote: string, author: string)

  /** `COLORS`: ten accent colours, as CSS hex codes. */
  const COLORS: seq<string> := [
    "#FF6B6B", "#4ECDC4", "#45B7D1", "#96CEB4", "#FFEAA7",
    "#DDA0DD", "#98D8C8", "#F7DC6F", "#BB8FCE", "#85C1E9"
  ]

  /** `FALLBACK_QUOTES`: the quotes shown when the remote source fails. */
  const FALLBACK_QUOTES: seq<FallbackQuote> := [
    FallbackQuote("The only way to do great work is to love what you do.", "Steve Jobs"),
    FallbackQuote("Life is what happens to you while you're busy making other plans.", "John Lennon"),
    FallbackQuote("The future belongs to those who believe in the beauty of their dreams.", "Eleanor Roosevelt")
  ]

  /** `#` followed by exactly six upper-case hexadecimal digits. */
  predicate IsHexColor(s: string) {
    |s| == 7 && s[0] == '#' && forall i :: 1 <= i < 7 ==> IsUpperHex(s[i])
  }

  /** The palette has ten entries, each a six-digit hex colour. */
  lemma PaletteWellFormed()
    ensures |COLORS| == 10
    ensures forall i :: 0 <= i < |COLORS| ==> IsHexColor(COLORS[i])
  {
  }

  /** No colour appears twice in the palette. */
  lemma PaletteDistinct()
    ensures forall i, j :: 0 <= i < j < |COLORS| ==> COLORS[i] != COLORS[j]
  {
  }

  /** There are three fallback quotes, none with an empty quote or author. */
  lemma FallbackQuotesComplete()
    ensures |FALLBACK_QUOTES| == 3
    ensures forall i :: 0 <= i < |FALLBACK_QUOTES| ==> FALLBACK_QUOTES[i].quote != "" && FALLBACK_QUOTES[i].author != ""
  {
  }
}
