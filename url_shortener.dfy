/** The shortener's decision chain: ask TinyURL, check its answer, fall back
    to is.gd, and fall back to the long URL when everything else fails. The
    two HTTP requests are not made here: what each service answered is an
    input, so that shortening is a total function that never fails. */
module UrlShortener {
  import opened Text

  /** What a request to a shortening service came to: a response body (the
      status was a success), a `requests.RequestException` (no connection,
      a time-out or an error status), or any other exception. */
  datatype Outcome = Body(text: string) | RequestError | OtherError

  /** A stripped answer is accepted when it starts with `http` and names
      the service's host. */
  predicate Accepted(answer: string, host: string)
  {
    "http" <= answer && Contains(answer, host)
  }

  /** `_fallback_shortener`: the stripped is.gd answer when it is accepted,
      and the long URL otherwise. */
  function FallbackShortener(url: string, isGd: Outcome): (r: string)
    ensures r == url || Accepted(r, "is.gd")
    ensures isGd.Body? && Accepted(Strip(isGd.text), "is.gd") ==> r == Strip(isGd.text)
    ensures !(isGd.Body? && Accepted(Strip(isGd.text), "is.gd")) ==> r == url
  {
    match isGd
    case Body(text) =>
      var shortened := Strip(text);
      if "http" <= shortened && Contains(shortened, "is.gd") then shortened else url
    case RequestError => url
    case OtherError => url
  }

  /** `shorten_url`: the stripped TinyURL answer when it is accepted; the
      fallback when the answer is rejected or the request failed; the long
      URL when anything else went wrong. */
  function ShortenUrl(url: string, tiny: Outcome, isGd: Outcome): (r: string)
    ensures r == url || Accepted(r, "tinyurl.com") || Accepted(r, "is.gd")
  {
    match tiny
    case Body(text) =>
      var shortened := Strip(text);
      if "http" <= shortened && Contains(shortened, "tinyurl.com") then shortened
      else FallbackShortener(url, isGd)
    case RequestError => FallbackShortener(url, isGd)
    case OtherError => url
  }

  /** An accepted TinyURL answer is returned, whatever is.gd would say. */
  lemma TinyUrlWins(url: string, text: string, isGd: Outcome, isGd': Outcome)
    requires Accepted(Strip(text), "tinyurl.com")
    ensures ShortenUrl(url, Body(text), isGd) == Strip(text)
    ensures ShortenUrl(url, Body(text), isGd) == ShortenUrl(url, Body(text), isGd')
  {
  }

  /** A rejected answer and a failed request both hand over to is.gd. */
  lemma FallbackOnFailure(url: string, tiny: Outcome, isGd: Outcome)
    requires tiny == RequestError || (tiny.Body? && !Accepted(Strip(tiny.text), "tinyurl.com"))
    ensures ShortenUrl(url, tiny, isGd) == FallbackShortener(url, isGd)
  {
  }

  /** Any other exception returns the long URL without asking is.gd. */
  lemma OtherErrorKeepsUrl(url: string, isGd: Outcome)
    ensures ShortenUrl(url, OtherError, isGd) == url
  {
  }

  /** When neither answer is accepted, the long URL comes back. */
  lemma NothingAccepted(url: string, tiny: Outcome, isGd: Outcome)
    requires !(tiny.Body? && Accepted(Strip(tiny.text), "tinyurl.com"))
    requires !(isGd.Body? && Accepted(Strip(isGd.text), "is.gd"))
    ensures ShortenUrl(url, tiny, isGd) == url
  {
  }
}
