# Amazon affiliate bot — a Dafny model of its decision rules

The bot reads Telegram messages. When a message holds an Amazon product
link, the bot scrapes the product page for a title, a price and an image,
rewrites the link with the affiliate tag `budgetlooks08-21`, shortens it and
replies with the product's details. Any other message gets one of five
canned small-talk replies.

This project models the rules under that plumbing and proves what they
promise:

- `Text` gives Python's `str` operations the bot relies on: `find`,
  `rfind`, `in`, `strip()`, `lower()`, slicing to a maximum length, and
  `split`/`join` on one character.
- `UrlLib` is Python 3.13's `urlparse`, `urlunparse`, `parse_qs` and
  `urlencode(..., doseq=True)` without percent-encoding. Its main results
  are that every `urlparse` result is well formed, that `urlparse` inverts
  `urlunparse` on well-formed parts, and that `parse_qs` inverts
  `urlencode` on the dictionaries `parse_qs` returns.
- `AmazonScraper` covers four parts of the scraper:
  - the ASIN search and the canonical `https://<netloc>/dp/<ASIN>` URL;
  - first-match-wins selection of the title, price and image, with the
    page lookups given as one input per CSS selector, in selector order;
  - the `._CODE_.` resize-segment substitution;
  - the affiliate-tag rewrite and its fallback.
- `BotHandlers` covers three things:
  - a backtracking-free recogniser for the product-link pattern, proved
    equal to the pattern read piece by piece;
  - the keyword cascade that picks a small-talk reply;
  - the layout of the product reply, which a `method` builds up with `+=`
    as the handler does.
- `UrlShortener` is the TinyURL-then-is.gd decision chain. Each service's
  answer is an input (a body, a request exception or another exception), so
  shortening is a total function.

The clean product URL is `https://` (8 characters), then the network
location, then `/dp/` (4 characters), then the 10-character ASIN. Its length
is therefore the network location's length plus 22, which is what
`CleanAmazonUrl` states.

## Model

Some members that model source lines carry no contract of their own. Each is pinned down by the rows of the lemmas about it:

- `BotHandlers.HasProductLink` by `ProductLinkSpec`.
- `AmazonScraper.Retag` by `RetagTagged` and `RetagWellFormed`.
- `AmazonScraper.Candidate` by `ImageFrom`, through `Cleaned`.
- `UrlLib.ParseQsl` by `ParseQslEncoded`.
- `UrlLib.Assign` by `AssignOk` and `AssignLookup`.
- `UrlLib.UrlUnsplit` by `UnparseParse`.
- `BotHandlers.ReplyFor` by `RouteMessage` and `RepliesDistinct`.
- `BotHandlers.ProductReply` by `ProductReplyLayout`, `PriceLineIff` and `ComposeReply`.

The single-input example lemmas (`StripExample`, `ImageExample`, `ThanksForThis`) illustrate the all-inputs lemmas beside them.

| member | source | states |
|---|---|---|
| Text.Strip | url_shortener.py:19 | `strip()` returns the text with white space at neither end, and the text is that result with only white space before and after it |
| Text.IndexOf | amazon_scraper.py:159 | `find` of one character gives its first position, and the length exactly when the character is absent |
| Text.Truncate | amazon_scraper.py:89 | `title[:200]` is a prefix of the title, at most 200 characters long, and the whole title when it is short enough |
| Text.LowerAppend | bot_handlers.py:164 | lower-casing distributes over concatenation |
| Text.LowerIdempotent | bot_handlers.py:164 | lower-casing lower-cased text changes nothing |
| Text.SplitJoin | amazon_scraper.py:160-164 | splitting on `&` undoes joining pieces that hold no `&` |
| UrlLib.Sanitize | amazon_scraper.py:159 | `urlsplit` strips a run of leading C0 controls and spaces (and only such characters) and then deletes every tab, CR and LF from the rest, keeping all other characters in order |
| UrlLib.RemoveUnsafe | amazon_scraper.py:159 | deleting tab, CR and LF leaves none of them, keeps a single safe character, and changes nothing in text without them |
| UrlLib.RemoveUnsafeAppend | amazon_scraper.py:159 | deleting tab, CR and LF works character by character: it distributes over concatenation |
| UrlLib.SplitScheme | amazon_scraper.py:159 | the scheme is lower-cased scheme characters before the first `:`, and the rest follows it |
| UrlLib.SplitNetloc | amazon_scraper.py:159 | the network location ends at the first `/`, `?` or `#` after `//` |
| UrlLib.SplitFirst | amazon_scraper.py:159 | `s.split(c, 1)`: the text before the first `c` and the text after it |
| UrlLib.ParamsCut | amazon_scraper.py:159 | params start after the first `;` that follows the last `/` |
| UrlLib.PathParams | amazon_scraper.py:159 | either the whole text is the path, or the text is the path, `;` and the params; params appear only for a scheme that uses them and a text holding `;`, and hold no `/` |
| UrlLib.UrlParse | amazon_scraper.py:159 | every result `urlparse` returns without raising is well formed: a lower-case scheme; no tab, CR or LF anywhere; no part holding the delimiter that ends it; params only for a scheme that uses them; an absolute or empty path after a network location |
| UrlLib.UrlUnparse | amazon_scraper.py:166-173 | `urlunparse` of safe parts writes no tab, CR or LF |
| UrlLib.UnparseScheme | amazon_scraper.py:166-173 | `urlparse` finds the scheme that `urlunparse` wrote |
| UrlLib.UnparseNetloc | amazon_scraper.py:166-173 | `urlparse` finds the network location that `urlunparse` wrote |
| UrlLib.UnparseRest | amazon_scraper.py:166-173 | `urlparse` finds the path, params, query and fragment that `urlunparse` wrote |
| UrlLib.UnparseParse | amazon_scraper.py:159-173 | `urlparse(urlunparse(c)) == c` for well-formed parts |
| UrlLib.WithQuery | amazon_scraper.py:166-173 | replacing the query with one that has no `#` keeps the parts well formed |
| UrlLib.ParseQs | amazon_scraper.py:160 | on a query `urlsplit` can return, `parse_qs` returns distinct keys, each with at least one non-blank value |
| UrlLib.AssignOk | amazon_scraper.py:162 | `query_params['tag'] = [...]` keeps the dictionary well shaped |
| UrlLib.AssignLookup | amazon_scraper.py:162 | after the assignment, `tag` maps to the new list and every other key maps to what it mapped to before |
| UrlLib.QueryRoundTrip | amazon_scraper.py:160-164 | `parse_qs(urlencode(d, doseq=True)) == d` for every dictionary `parse_qs` can return |
| UrlLib.ParseQslEncoded | amazon_scraper.py:164 | `parse_qsl` reads back the key/value pairs `urlencode` wrote, in order |
| UrlLib.Urlencode | amazon_scraper.py:164 | encoding a dictionary `parse_qs` can return gives a query with no `#`, tab, CR or LF |
| UrlLib.CountKeyFlatten | amazon_scraper.py:164 | a key occurs in the encoded pairs once per value in its list |
| AmazonScraper.AsinPrefix | amazon_scraper.py:56 | a match at a position is `/dp/` or `/gp/product/` followed by a 10-character `[A-Z0-9]` ASIN, which is returned |
| AmazonScraper.AsinIndex | amazon_scraper.py:57 | `re.search` gives the leftmost match position; no position before it matches, and when nothing matches the result is the length |
| AmazonScraper.FindAsin | amazon_scraper.py:56-62 | the group is an ASIN that occurs in the URL; there is none exactly when no position matches |
| AmazonScraper.CleanAmazonUrl | amazon_scraper.py:53-71 | the result is present exactly when an ASIN is found and `urlparse` does not raise, and it is then exactly `https://` + the parsed network location + `/dp/` + the first ASIN found |
| AmazonScraper.CleanParts | amazon_scraper.py:66 | the clean URL's parts are well formed, and `urlunparse` writes exactly `https://<netloc>/dp/<ASIN>` |
| AmazonScraper.CleanAsin | amazon_scraper.py:56-62 | the first match in a clean URL is its own ASIN |
| AmazonScraper.CleanIdempotent | amazon_scraper.py:53-71 | cleaning a clean URL gives it back unchanged |
| AmazonScraper.FirstWhere | amazon_scraper.py:84-89 | gives the first candidate that qualifies; every candidate before it is rejected |
| AmazonScraper.TitleOf | amazon_scraper.py:84-91 | the title is 1 to 200 characters long, a prefix of the first non-empty candidate, and `Amazon Product` when no candidate is non-empty |
| AmazonScraper.ExtractTitle | amazon_scraper.py:73-95 | the loop with its early return computes `TitleOf` |
| AmazonScraper.TitleChoice | amazon_scraper.py:84-89 | the first non-empty candidate decides the title, whatever later selectors find |
| AmazonScraper.PriceOf | amazon_scraper.py:109-116 | a returned price is one of the candidates and is non-empty with a digit; None exactly when no candidate qualifies |
| AmazonScraper.ExtractPrice | amazon_scraper.py:97-120 | the loop with its early return computes `PriceOf` |
| AmazonScraper.PriceChoice | amazon_scraper.py:109-114 | the first qualifying candidate is the price, whatever follows it |
| AmazonScraper.ResizeMatch | amazon_scraper.py:140 | a match starts with `._`, ends with `_.`, and holds only `[A-Z0-9_,]` characters between them |
| AmazonScraper.ResizeMatchComplete | amazon_scraper.py:140 | conversely, whenever the text starts with a piece of that shape, the match has that piece's length (the match at a position is unique) |
| AmazonScraper.ResizeMatchCode | amazon_scraper.py:140 | `._` + a non-empty `[A-Z0-9_,]` code + `_.` matches with length the code's length plus 4, whatever follows |
| AmazonScraper.StripResize | amazon_scraper.py:140 | the substitution never lengthens the URL and keeps its first character |
| AmazonScraper.StripResizeReplace | amazon_scraper.py:140 | the leftmost match is replaced by `.`, the text before it is kept, and the substitution goes on after the match |
| AmazonScraper.StripResizeCode | amazon_scraper.py:140 | a text without `._` followed by `._CODE_.` becomes that text, `.`, and the substituted rest |
| AmazonScraper.StripResizeNoCode | amazon_scraper.py:140 | a URL in which no match starts is left unchanged, even when it holds `._` (for instance before a lower-case code) |
| AmazonScraper.StripResizeSuffix | amazon_scraper.py:140 | a stem without `_`, `._CODE_.` and a suffix without `.` become the stem, `.` and the suffix |
| AmazonScraper.StripResizeKeepsPrefix | amazon_scraper.py:140-147 | text before the first `.` survives, so the `//`, `/` and `http` tests see the original start |
| AmazonScraper.StripExample | amazon_scraper.py:140 | `//m.media-amazon.com/x._AC_SX300_.jpg` becomes `//m.media-amazon.com/x.jpg` |
| AmazonScraper.ImageFrom | amazon_scraper.py:135-148 | an element yields a URL exactly when its substituted `src` (else `data-src`) starts with `//`, or starts with `http` and not `/`; the URL is that text, with `https:` in front in the `//` case |
| AmazonScraper.ImageOf | amazon_scraper.py:133-150 | a returned image URL starts with `http` and comes from one of the selectors; None exactly when no selector yields one |
| AmazonScraper.ImageChoice | amazon_scraper.py:133-148 | the first selector that yields a URL decides the image, whatever later selectors find |
| AmazonScraper.ExtractImageUrl | amazon_scraper.py:122-154 | the loop with `continue` and early return computes `ImageOf` |
| AmazonScraper.ImageRelative | amazon_scraper.py:142-145 | a `//` URL gains `https:`; a single-`/` URL is skipped, and the later selectors decide |
| AmazonScraper.ImageExample | amazon_scraper.py:140-148 | `//m.media-amazon.com/x._AC_SX300_.jpg` gives `https://m.media-amazon.com/x.jpg` |
| AmazonScraper.AffiliateFallback | amazon_scraper.py:177-180 | the URL is a prefix of the result, followed by `&` if the URL holds `?` (else `?`), then `tag=budgetlooks08-21` |
| AmazonScraper.AffiliateLink | amazon_scraper.py:156-180 | on a parse failure the result is the fallback; otherwise the tagged link reads back with `tag` once and everything else kept |
| AmazonScraper.GenerateAffiliateLink | amazon_scraper.py:156-180 | on a parse failure the result is the fallback; otherwise the link reads back with the same scheme, network location, path, params and fragment, exactly one `tag` equal to `budgetlooks08-21`, and every other key's values unchanged |
| AmazonScraper.RetagWellFormed | amazon_scraper.py:160-173 | the tagged parts are well formed, and their query reads back as the assigned dictionary |
| AmazonScraper.TagQuery | amazon_scraper.py:160-164 | setting a key in a query that `urlsplit` can return gives a query without `#` that reads back as the dictionary with the key set |
| AmazonScraper.RetagTagged | amazon_scraper.py:159-173 | the tagged link reads back with `tag` once and with everything else kept |
| AmazonScraper.AssignSame | amazon_scraper.py:162 | assigning a key the values it already has changes nothing |
| AmazonScraper.AffiliateIdempotent | amazon_scraper.py:156-175 | tagging a tagged link again gives the same link |
| BotHandlers.TldRunEnd | bot_handlers.py:88 | `[a-z.]` is matched by the maximal run of such characters |
| BotHandlers.LinkShape | bot_handlers.py:88 | where the recogniser accepts, the pattern matches piece by piece |
| BotHandlers.ShapeLink | bot_handlers.py:88 | wherever the pattern matches piece by piece, the recogniser accepts |
| BotHandlers.ProductLinkSpec | bot_handlers.py:88-89 | `re.search` finds a match exactly when the pattern matches at some position |
| BotHandlers.ShapeProduct | bot_handlers.py:88 | every match ends with `dp` or `gp/product`, a `/` and an ASIN, with a `/` before them |
| BotHandlers.ProductLinkHasAsin | bot_handlers.py:88-92 | a message sent to the product branch holds an ASIN that the scraper's pattern finds |
| BotHandlers.ProductLinkNeedsLowerCase | bot_handlers.py:88 | a product link holds lower-case `http` and `amazon.` |
| BotHandlers.UpperCaseNotLink | bot_handlers.py:88-94 | a message without `h`, such as one in capitals, never goes to the product branch |
| BotHandlers.HelpExampleIsLink | bot_handlers.py:63 | `https://amazon.in/dp/<ASIN>`, the form the help text shows, is recognised |
| BotHandlers.RouteMessage | bot_handlers.py:88-94 | product branch exactly when the pattern is found; otherwise the reply the cascade picks |
| BotHandlers.Classify | bot_handlers.py:164-175 | each of the five replies is chosen exactly when its group's word is in the lower-cased text and no earlier group's word is (greeting, thanks, how, `amazon`), the fallback exactly when none is |
| BotHandlers.GreetingWins | bot_handlers.py:166-167 | any greeting word, even inside another word, gives the greeting |
| BotHandlers.ThanksForThis | bot_handlers.py:166-169 | `Thanks for this` holds a thanks word but gets the greeting, because `this` holds `hi` |
| BotHandlers.AppendRaisesPriority | bot_handlers.py:166-175 | adding text to a message can only move it up the cascade |
| BotHandlers.ClassifyIgnoresCase | bot_handlers.py:164 | writing a message in ASCII capitals picks the same reply |
| BotHandlers.RepliesDistinct | bot_handlers.py:166-175 | the five replies differ, so the reply shows which branch was taken |
| BotHandlers.ComposeReply | bot_handlers.py:126-132 | the `+=` steps build the product reply |
| BotHandlers.ProductReplyLayout | bot_handlers.py:126-132 | the reply starts with the bold title line, holds the shortened link and ends with the commission sentence |
| BotHandlers.PriceLineIff | bot_handlers.py:128-129 | the price line is there exactly when the price is truthy: then the reply starts with the title line and the price line, otherwise with the title line and the link line |
| UrlShortener.FallbackShortener | url_shortener.py:35-56 | the result is the stripped is.gd answer when it starts with `http` and holds `is.gd`; otherwise it is the long URL |
| UrlShortener.ShortenUrl | url_shortener.py:11-33 | the result is the long URL, or starts with `http` and holds `tinyurl.com` or `is.gd` |
| UrlShortener.TinyUrlWins | url_shortener.py:19-23 | an accepted TinyURL answer is returned, and is.gd's answer does not matter |
| UrlShortener.FallbackOnFailure | url_shortener.py:24-30 | a rejected answer or a request exception hands over to is.gd |
| UrlShortener.OtherErrorKeepsUrl | url_shortener.py:31-33 | any other exception returns the long URL without asking is.gd |
| UrlShortener.NothingAccepted | url_shortener.py:11-56 | when neither answer is accepted, the long URL comes back |

## Left out

- Network access is not modelled: the product-page fetch (amazon_scraper.py:31) and the two shortener requests (url_shortener.py:16, 44). The shortener's answers are inputs.
- The request headers (amazon_scraper.py:13-20) only matter to the fetch.
- HTML parsing is not modelled: BeautifulSoup, `select_one` and `get_text(strip=True)`. Each selector's stripped text, or each image element's `src`/`data-src`, is an input.
- Image attributes whose value is not a string (the `isinstance` test, amazon_scraper.py:138) are not modelled: attribute values are strings.
- `extract_product_info` (amazon_scraper.py:22-51) is left out. It is only the fetch around the modelled parts.
- The end-to-end product pipeline is left out. `extract_product_info` is `async` but is handed to `run_in_executor` (bot_handlers.py:110), and the whole message rather than the matched link is passed on (bot_handlers.py:92, 120). The components are modelled separately instead.
- Telegram calls are not modelled: `reply_text`, `reply_photo`, `edit_text` and `delete`. Neither are `start_handler`, `help_handler`, the apology replies in the `except` branches, or logging.
- `try`/`except` branches that no modelled input can reach are not modelled: those of `_extract_title`, `_extract_price` and `_extract_image_url`.
- Percent-encoding is not modelled. `urlencode` quoting and `parse_qs` unquoting (including `+` for space) are left out, so the query text differs from Python's where a key or value needs quoting. The dictionary read back is the same.
- `parse_qs`'s optional arguments are not modelled: `keep_blank_values`, `strict_parsing`, `max_num_fields` and `separator` keep their defaults.
- UrlLib.UrlParse: raises `ValueError` only for a network location with an unpaired `[` or `]`. The NFKC network-location check and the bracketed-host validation are not modelled.
- AmazonScraper.PriceOf: counts only ASCII digits. Python's `isdigit` also accepts other Unicode digits, so a price written only in such digits is rejected here.
- AmazonScraper.ExtractPrice: same ASCII-digit restriction as PriceOf.
- Text.Lower: maps only the characters whose lower case holds an ASCII letter (A-Z, U+0130, U+212A). Other characters are kept as they are. This does not change any keyword test, because the keywords are ASCII.
- The fallback tag append (amazon_scraper.py:177-180) does not replace an existing `tag` and may repeat it. The "exactly one tag" property holds only when `urlparse` succeeds.
