/** The decisions the message handlers take on a text message: whether it
    holds an Amazon product link, which small-talk reply a general message
    gets, and the layout of the reply that carries a product's details. The
    Telegram calls that send the replies are not modelled. */
module BotHandlers {
  import opened Text
  import AmazonScraper

  // ---------------------------------------------------------------------
  // Recognising a product link
  //
  // The pattern is
  //   https?://(?:www\.)?amazon\.[a-z.]{2,6}/(?:[^/]+/)?(?:dp|gp/product)/([A-Z0-9]{10})
  // and `re.search` succeeds when it matches somewhere in the message. The
  // recogniser below decides a match at a given position without
  // backtracking; MatchShape spells the pattern out piece by piece, and
  // ProductLinkSpec shows that the two agree.

  predicate IsTldChar(c: char) { IsAsciiLower(c) || c == '.' }

  /** The end of the run of `[a-z.]` characters that starts at `i`. */
  function TldRunEnd(s: string, i: nat): (e: nat)
    requires i <= |s|
    ensures i <= e <= |s|
    ensures forall k :: i <= k < e ==> IsTldChar(s[k])
    ensures e < |s| ==> !IsTldChar(s[e])
    decreases |s| - i
  {
    if i < |s| && IsTldChar(s[i]) then TldRunEnd(s, i + 1) else i
  }

  /** `(?:dp|gp/product)/([A-Z0-9]{10})` at position `p`. */
  predicate ProductAt(s: string, p: nat)
  {
    || (p + 13 <= |s| && s[p..p + 2] == "dp" && s[p + 2] == '/' && AmazonScraper.IsAsin(s[p + 3..p + 13]))
    || (p + 21 <= |s| && s[p..p + 10] == "gp/product" && s[p + 10] == '/' && AmazonScraper.IsAsin(s[p + 11..p + 21]))
  }

  /** `(?:[^/]+/)?` followed by the product part, at position `j`. A segment
      holds no `/`, so it can only end at the first `/` after `j`. */
  predicate PathAt(s: string, j: nat)
    requires j <= |s|
  {
    || ProductAt(s, j)
    || (var k := j + IndexOf(s[j..], '/'); j < k < |s| && ProductAt(s, k + 1))
  }

  /** `[a-z.]{2,6}/` and the path, at position `d`. The run of `[a-z.]` must
      end at the `/`, which is not in the class. */
  predicate TldAt(s: string, d: nat)
    requires d <= |s|
  {
    var e := TldRunEnd(s, d);
    2 <= e - d <= 6 && e < |s| && s[e] == '/' && PathAt(s, e + 1)
  }

  predicate AmazonAt(s: string, a: nat)
  {
    a + 7 <= |s| && s[a..a + 7] == "amazon." && TldAt(s, a + 7)
  }

  predicate HostAt(s: string, h: nat)
  {
    AmazonAt(s, h) || (h + 4 <= |s| && s[h..h + 4] == "www." && AmazonAt(s, h + 4))
  }

  /** The pattern matches the text that starts at position `i`. */
  predicate LinkAt(s: string, i: nat)
  {
    || (i + 7 <= |s| && s[i..i + 7] == "http://" && HostAt(s, i + 7))
    || (i + 8 <= |s| && s[i..i + 8] == "https://" && HostAt(s, i + 8))
  }

  /** `re.search(amazon_url_pattern, message_text)` finds a match. */
  predicate HasProductLink(s: string)
  {
    exists i :: 0 <= i < |s| && LinkAt(s, i)
  }

  // The pattern read piece by piece, each piece with its length chosen
  // freely: `pl` for the product word, `gl` for the optional segment and
  // its `/`, `tl` for the top-level domain, `wl` for the optional `www.`,
  // `sl` for the scheme with its `://`.

  ghost predicate ProductShape(s: string, p: nat, pl: nat)
  {
    && p + pl + 11 <= |s|
    && ((pl == 2 && s[p..p + pl] == "dp") || (pl == 10 && s[p..p + pl] == "gp/product"))
    && s[p + pl] == '/' && AmazonScraper.IsAsin(s[p + pl + 1..p + pl + 11])
  }

  ghost predicate PathShape(s: string, j: nat, gl: nat, pl: nat)
  {
    && (gl == 0 || (gl >= 2 && j + gl <= |s| && s[j + gl - 1] == '/'
                    && forall k :: j <= k < j + gl - 1 ==> s[k] != '/'))
    && ProductShape(s, j + gl, pl)
  }

  ghost predicate TldShape(s: string, d: nat, tl: nat, gl: nat, pl: nat)
  {
    && 2 <= tl <= 6 && d + tl < |s|
    && (forall k :: d <= k < d + tl ==> IsTldChar(s[k]))
    && s[d + tl] == '/'
    && PathShape(s, d + tl + 1, gl, pl)
  }

  ghost predicate AmazonShape(s: string, a: nat, tl: nat, gl: nat, pl: nat)
  {
    a + 7 <= |s| && s[a..a + 7] == "amazon." && TldShape(s, a + 7, tl, gl, pl)
  }

  ghost predicate HostShape(s: string, h: nat, wl: nat, tl: nat, gl: nat, pl: nat)
  {
    && (wl == 0 || (wl == 4 && h + 4 <= |s| && s[h..h + 4] == "www."))
    && AmazonShape(s, h + wl, tl, gl, pl)
  }

  /** The whole pattern, matched at position `i`. */
  ghost predicate MatchShape(s: string, i: nat, sl: nat, wl: nat, tl: nat, gl: nat, pl: nat)
  {
    && ((sl == 7 && i + 7 <= |s| && s[i..i + 7] == "http://")
        || (sl == 8 && i + 8 <= |s| && s[i..i + 8] == "https://"))
    && HostShape(s, i + sl, wl, tl, gl, pl)
  }

  /** A message is routed to the product branch exactly when the pattern,
      read piece by piece, matches somewhere in it. */
  lemma ProductLinkSpec(s: string)
    ensures HasProductLink(s) <==>
      exists i, sl, wl, tl, gl, pl :: 0 <= i < |s| && MatchShape(s, i, sl, wl, tl, gl, pl)
  {
    if HasProductLink(s) {
      LinkHasShape(s);
    }
    if exists i, sl, wl, tl, gl, pl :: 0 <= i < |s| && MatchShape(s, i, sl, wl, tl, gl, pl) {
      ShapeHasLink(s);
    }
  }

  lemma LinkHasShape(s: string)
    requires HasProductLink(s)
    ensures exists i, sl, wl, tl, gl, pl :: 0 <= i < |s| && MatchShape(s, i, sl, wl, tl, gl, pl)
  {
    var i :| 0 <= i < |s| && LinkAt(s, i);
    var sl, wl, tl, gl, pl := LinkShape(s, i);
  }

  lemma ShapeHasLink(s: string)
    requires exists i, sl, wl, tl, gl, pl :: 0 <= i < |s| && MatchShape(s, i, sl, wl, tl, gl, pl)
    ensures HasProductLink(s)
  {
    forall i, sl, wl, tl, gl, pl | 0 <= i < |s| && MatchShape(s, i, sl, wl, tl, gl, pl)
      ensures LinkAt(s, i)
    {
      ShapeLink(s, i, sl, wl, tl, gl, pl);
    }
  }

  /** Where the recogniser succeeds, the pattern matches. */
  lemma LinkShape(s: string, i: nat) returns (sl: nat, wl: nat, tl: nat, gl: nat, pl: nat)
    requires LinkAt(s, i)
    ensures MatchShape(s, i, sl, wl, tl, gl, pl)
  {
    sl := if i + 7 <= |s| && s[i..i + 7] == "http://" && HostAt(s, i + 7) then 7 else 8;
    wl, tl, gl, pl := HostShapeOf(s, i + sl);
  }

  lemma HostShapeOf(s: string, h: nat) returns (wl: nat, tl: nat, gl: nat, pl: nat)
    requires HostAt(s, h)
    ensures HostShape(s, h, wl, tl, gl, pl)
  {
    wl := if AmazonAt(s, h) then 0 else 4;
    var d := h + wl + 7;
    tl, gl, pl := TldShapeOf(s, d);
  }

  lemma TldShapeOf(s: string, d: nat) returns (tl: nat, gl: nat, pl: nat)
    requires d <= |s| && TldAt(s, d)
    ensures TldShape(s, d, tl, gl, pl)
  {
    var e := TldRunEnd(s, d);
    assert 2 <= e - d <= 6 && e < |s| && s[e] == '/' && PathAt(s, e + 1);
    tl := e - d;
    gl, pl := PathShapeOf(s, e + 1);
    TldShapeIntro(s, d, tl, gl, pl);
  }

  lemma TldShapeIntro(s: string, d: nat, tl: nat, gl: nat, pl: nat)
    requires 2 <= tl <= 6 && d + tl < |s| && s[d + tl] == '/'
    requires forall k :: d <= k < d + tl ==> IsTldChar(s[k])
    requires PathShape(s, d + tl + 1, gl, pl)
    ensures TldShape(s, d, tl, gl, pl)
  {
  }

  lemma PathShapeOf(s: string, j: nat) returns (gl: nat, pl: nat)
    requires j <= |s| && PathAt(s, j)
    ensures PathShape(s, j, gl, pl)
  {
    if ProductAt(s, j) {
      gl := 0;
      pl := ProductShapeOf(s, j);
    } else {
      var n := IndexOf(s[j..], '/');
      assert j < j + n < |s| && ProductAt(s, j + n + 1);
      gl, pl := SegmentShapeOf(s, j, n);
    }
  }

  lemma SegmentShapeOf(s: string, j: nat, n: nat) returns (gl: nat, pl: nat)
    requires j < j + n < |s| && n == IndexOf(s[j..], '/') && ProductAt(s, j + n + 1)
    ensures PathShape(s, j, gl, pl)
  {
    SegmentOf(s, j, n);
    gl := n + 1;
    pl := ProductShapeOf(s, j + gl);
  }

  /** The segment before the first `/` after `j` holds no `/`. */
  lemma SegmentOf(s: string, j: nat, n: nat)
    requires j + n < |s| && n == IndexOf(s[j..], '/')
    ensures s[j + n] == '/' && forall k :: j <= k < j + n ==> s[k] != '/'
  {
    assert forall k :: j <= k <= j + n ==> s[k] == s[j..][k - j];
  }

  lemma ProductShapeOf(s: string, p: nat) returns (pl: nat)
    requires ProductAt(s, p)
    ensures ProductShape(s, p, pl)
  {
    pl := if p + 13 <= |s| && s[p..p + 2] == "dp" && s[p + 2] == '/' && AmazonScraper.IsAsin(s[p + 3..p + 13]) then 2 else 10;
  }

  /** Where the pattern matches, the recogniser succeeds. */
  lemma ShapeLink(s: string, i: nat, sl: nat, wl: nat, tl: nat, gl: nat, pl: nat)
    requires MatchShape(s, i, sl, wl, tl, gl, pl)
    ensures LinkAt(s, i)
  {
    ShapeHost(s, i + sl, wl, tl, gl, pl);
  }

  lemma ShapeHost(s: string, h: nat, wl: nat, tl: nat, gl: nat, pl: nat)
    requires HostShape(s, h, wl, tl, gl, pl)
    ensures HostAt(s, h)
  {
    ShapeTld(s, h + wl + 7, tl, gl, pl);
  }

  lemma ShapeTld(s: string, d: nat, tl: nat, gl: nat, pl: nat)
    requires TldShape(s, d, tl, gl, pl)
    ensures TldAt(s, d)
  {
    TldRunEndAt(s, d, d + tl);
    ShapePath(s, d + tl + 1, gl, pl);
  }

  lemma ShapePath(s: string, j: nat, gl: nat, pl: nat)
    requires PathShape(s, j, gl, pl)
    ensures j <= |s| && PathAt(s, j)
  {
    ShapeProductAt(s, j + gl, pl);
    if gl > 0 {
      SegmentEnd(s, j, gl);
    }
  }

  lemma ShapeProductAt(s: string, p: nat, pl: nat)
    requires ProductShape(s, p, pl)
    ensures ProductAt(s, p)
  {
  }

  /** A segment without `/` ends at the first `/` after its start. */
  lemma SegmentEnd(s: string, j: nat, gl: nat)
    requires gl >= 2 && j + gl <= |s| && s[j + gl - 1] == '/'
    requires forall k :: j <= k < j + gl - 1 ==> s[k] != '/'
    ensures IndexOf(s[j..], '/') == gl - 1
  {
    var t := s[j..];
    assert forall m :: 0 <= m < gl - 1 ==> t[m] == s[j + m];
    IndexOfAt(t, '/', gl - 1);
  }

  lemma {:induction false} TldRunEndAt(s: string, i: nat, e: nat)
    requires i <= e < |s| && !IsTldChar(s[e])
    requires forall k :: i <= k < e ==> IsTldChar(s[k])
    ensures TldRunEnd(s, i) == e
    decreases e - i
  {
    if i < e {
      TldRunEndAt(s, i + 1, e);
    }
  }

  lemma IndexOfAt(t: string, c: char, k: nat)
    requires k < |t| && t[k] == c && forall j :: 0 <= j < k ==> t[j] != c
    ensures IndexOf(t, c) == k
  {
  }

  /** The product word of a matched pattern, and the `/` before it. */
  lemma ShapeProduct(s: string, i: nat, sl: nat, wl: nat, tl: nat, gl: nat, pl: nat) returns (p: nat)
    requires MatchShape(s, i, sl, wl, tl, gl, pl)
    ensures 1 <= p < |s| && s[p - 1] == '/' && ProductShape(s, p, pl)
  {
    var d := i + sl + wl + 7;
    assert HostShape(s, i + sl, wl, tl, gl, pl);
    assert AmazonShape(s, i + sl + wl, tl, gl, pl);
    var j := TldPath(s, d, tl, gl, pl);
    p := PathProduct(s, j, gl, pl);
  }

  lemma TldPath(s: string, d: nat, tl: nat, gl: nat, pl: nat) returns (j: nat)
    requires TldShape(s, d, tl, gl, pl)
    ensures j == d + tl + 1 && j <= |s| && s[j - 1] == '/' && PathShape(s, j, gl, pl)
  {
    j := d + tl + 1;
  }

  lemma PathProduct(s: string, j: nat, gl: nat, pl: nat) returns (p: nat)
    requires 1 <= j <= |s| && s[j - 1] == '/' && PathShape(s, j, gl, pl)
    ensures p == j + gl && 1 <= p < |s| && s[p - 1] == '/' && ProductShape(s, p, pl)
  {
    p := j + gl;
  }

  /** A message routed to the product branch holds an ASIN that the
      scraper's own pattern, `/(?:dp|gp/product)/([A-Z0-9]{10})`, finds. */
  lemma ProductLinkHasAsin(s: string)
    requires HasProductLink(s)
    ensures AmazonScraper.FindAsin(s).Some?
  {
    var i :| 0 <= i < |s| && LinkAt(s, i);
    var sl, wl, tl, gl, pl := LinkShape(s, i);
    var p := ShapeProduct(s, i, sl, wl, tl, gl, pl);
    ProductAsin(s, p, pl);
  }

  lemma ProductAsin(s: string, p: nat, pl: nat)
    requires 1 <= p < |s| && s[p - 1] == '/' && ProductShape(s, p, pl)
    ensures AmazonScraper.AsinPrefix(s[p - 1..]).Some?
  {
    var t := s[p - 1..];
    if pl == 2 {
      assert t[..4] == [s[p - 1]] + s[p..p + 2] + [s[p + 2]];
      assert t[4..14] == s[p + 3..p + 13];
    } else {
      assert t[..12] == [s[p - 1]] + s[p..p + 10] + [s[p + 10]];
      assert t[12..22] == s[p + 11..p + 21];
    }
  }

  /** The pattern is case-sensitive: a link needs a lower-case `http` and
      `amazon.`. */
  lemma ProductLinkNeedsLowerCase(s: string)
    requires HasProductLink(s)
    ensures Contains(s, "http") && Contains(s, "amazon.")
  {
    var i :| 0 <= i < |s| && LinkAt(s, i);
    var sl, wl, tl, gl, pl := LinkShape(s, i);
    ShapeWords(s, i, sl, wl, tl, gl, pl);
  }

  lemma ShapeWords(s: string, i: nat, sl: nat, wl: nat, tl: nat, gl: nat, pl: nat)
    requires MatchShape(s, i, sl, wl, tl, gl, pl)
    ensures Contains(s, "http") && Contains(s, "amazon.")
  {
    assert s[i..i + 4] == s[i..i + sl][..4];
    ContainsAt(s, "http", i);
    assert HostShape(s, i + sl, wl, tl, gl, pl);
    ContainsAt(s, "amazon.", i + sl + wl);
  }

  /** So a message without `h`, such as one written in capitals, never goes
      to the product branch. */
  lemma UpperCaseNotLink(s: string)
    requires 'h' !in s
    ensures !HasProductLink(s)
  {
    if HasProductLink(s) {
      ProductLinkNeedsLowerCase(s);
      ContainsNeedsChar(s, "http", 'h');
    }
  }

  /** A link of the form the help text shows is recognised. */
  lemma HelpExampleIsLink(asin: string)
    requires AmazonScraper.IsAsin(asin)
    ensures HasProductLink("https://amazon.in/dp/" + asin)
  {
    var s := "https://amazon.in/dp/" + asin;
    assert s[..8] == "https://" && s[8..15] == "amazon." && s[15] == 'i' && s[16] == 'n' && s[17] == '/';
    assert s[18..20] == "dp" && s[20] == '/' && s[21..31] == asin;
    assert ProductShape(s, 18, 2);
    assert PathShape(s, 18, 0, 2);
    assert TldShape(s, 15, 2, 0, 2);
    assert MatchShape(s, 0, 8, 0, 2, 0, 2);
    ShapeLink(s, 0, 8, 0, 2, 0, 2);
  }

  // ---------------------------------------------------------------------
  // Routing and small talk

  datatype Intent = Greeting | Thanks | HowTo | AmazonMention | Unrecognized

  const GreetingWords: seq<string> := ["hello", "hi", "hey", "namaste"]
  const ThanksWords: seq<string> := ["thanks", "thank you", "shukriya"]
  const HowWords: seq<string> := ["how", "kaise", "kya"]
  const AmazonWord: string := "amazon"

  /** `any(word in text for word in words)`. */
  predicate AnyIn(words: seq<string>, text: string)
  {
    exists k :: 0 <= k < |words| && Contains(text, words[k])
  }

  /** The `if`/`elif` cascade of `handle_general_message` on the lower-cased
      message: the first group with a word in the text wins. */
  function Classify(message: string): (intent: Intent)
    ensures intent == Greeting <==> AnyIn(GreetingWords, Lower(message))
    ensures intent == Thanks <==> !AnyIn(GreetingWords, Lower(message)) && AnyIn(ThanksWords, Lower(message))
    ensures intent == HowTo <==>
      !AnyIn(GreetingWords, Lower(message)) && !AnyIn(ThanksWords, Lower(message)) && AnyIn(HowWords, Lower(message))
    ensures intent == AmazonMention <==>
      !AnyIn(GreetingWords, Lower(message)) && !AnyIn(ThanksWords, Lower(message))
      && !AnyIn(HowWords, Lower(message)) && Contains(Lower(message), AmazonWord)
    ensures intent == Unrecognized <==>
      !AnyIn(GreetingWords, Lower(message)) && !AnyIn(ThanksWords, Lower(message))
      && !AnyIn(HowWords, Lower(message)) && !Contains(Lower(message), AmazonWord)
  {
    var text := Lower(message);
    if AnyIn(GreetingWords, text) then Greeting
    else if AnyIn(ThanksWords, text) then Thanks
    else if AnyIn(HowWords, text) then HowTo
    else if Contains(text, AmazonWord) then AmazonMention
    else Unrecognized
  }

  const GreetingReply: string := "Hey there! \U{1F44B} Main Amazon affiliate bot hun!\n"
    + "Amazon ka koi product link bhejo! \U{1F6CD}\U{FE0F}\U{2728}"
  const ThanksReply: string := "Welcome! Khushi hui help karke! \U{1F60A}\n"
    + "Aur Amazon products chahiye toh link bhej dena! \U{1F6D2}"
  const HowToReply: string := "Main Amazon affiliate bot hun! \U{1F916}\n\n"
    + "\U{1F4DD} **Kaise use kare:**\n" + "1. Amazon product link bhejo\n" + "2. Main image extract karunga\n"
    + "3. Affiliate link banaunga\n" + "4. Shortened URL dunga\n\n" + "Try karo! \U{1F680}"
  const AmazonReply: string := "Haan! Amazon ke liye hi bana hun! \U{1F6CD}\U{FE0F}\n"
    + "Koi bhi Amazon product ka link bhejo! \U{26A1}"
  const FallbackReply: string := "Main sirf Amazon product links " + "handle karta hun! \U{1F6D2}\n\n"
    + "Koi Amazon product ka link bhejo jaise:\n" + "\U{2022} amazon.in/dp/PRODUCT_ID\n\n"
    + "Main image aur affiliate link banake dunga! \U{1F60A}"

  /** The reply text for each intent. */
  function ReplyFor(intent: Intent): string
  {
    match intent
    case Greeting => GreetingReply
    case Thanks => ThanksReply
    case HowTo => HowToReply
    case AmazonMention => AmazonReply
    case Unrecognized => FallbackReply
  }

  /** The five replies are pairwise different, so the reply tells which
      branch of the cascade was taken. */
  lemma RepliesDistinct(a: Intent, b: Intent)
    requires ReplyFor(a) == ReplyFor(b)
    ensures a == b
  {
    ReplyMark(a);
    ReplyMark(b);
  }

  /** The sixth character of each reply. */
  function Mark(intent: Intent): char
  {
    match intent
    case Greeting => 'h'
    case Thanks => 'm'
    case HowTo => 'A'
    case AmazonMention => ' '
    case Unrecognized => 's'
  }

  lemma ReplyMark(intent: Intent)
    ensures |ReplyFor(intent)| > 5 && ReplyFor(intent)[5] == Mark(intent)
  {
    match intent
    case Greeting =>
    case Thanks =>
    case HowTo =>
    case AmazonMention =>
    case Unrecognized =>
  }

  /** What `message_handler` does with a text message. */
  datatype Route = ProductBranch | GeneralReply(reply: string)

  function RouteMessage(message: string): (r: Route)
    ensures r.ProductBranch? <==> HasProductLink(message)
    ensures r.GeneralReply? ==> r.reply == ReplyFor(Classify(message))
  {
    if HasProductLink(message) then ProductBranch else GeneralReply(ReplyFor(Classify(message)))
  }

  /** The position of an intent in the cascade. */
  function Rank(intent: Intent): nat
  {
    match intent
    case Greeting => 0
    case Thanks => 1
    case HowTo => 2
    case AmazonMention => 3
    case Unrecognized => 4
  }

  /** A greeting word anywhere in the text wins, whatever else the text
      holds: "this" holds "hi". */
  lemma GreetingWins(message: string, k: nat)
    requires k < |GreetingWords| && Contains(Lower(message), GreetingWords[k])
    ensures Classify(message) == Greeting
  {
  }

  /** "Thanks for this" holds a thanks word, yet gets the greeting. */
  lemma ThanksForThis(message: string)
    requires message == "Thanks for this"
    ensures AnyIn(ThanksWords, Lower(message))
    ensures Classify(message) == Greeting
  {
    var t := Lower(message);
    LowerThanksForThis(message);
    ThanksAt(t);
    GreetingWins(message, 1);
  }

  lemma LowerThanksForThis(message: string)
    requires message == "Thanks for this"
    ensures |Lower(message)| == 15
    ensures Lower(message)[..6] == "thanks" && Lower(message)[12..14] == "hi"
  {
    var t := Lower(message);
    LowerAsciiText(message);
    assert t[..6] == "thanks" by {
      forall k | 0 <= k < 6 ensures t[k] == "thanks"[k] {
        assert t[k] == LowerAscii(message[k]);
      }
    }
    assert t[12..14] == "hi" by {
      assert t[12] == LowerAscii(message[12]) && t[13] == LowerAscii(message[13]);
    }
  }

  /** Text that starts with `thanks` and holds `hi` at 12 has a word of
      both groups. */
  lemma ThanksAt(t: string)
    requires |t| == 15 && t[..6] == "thanks" && t[12..14] == "hi"
    ensures AnyIn(ThanksWords, t) && Contains(t, GreetingWords[1])
  {
    ContainsAt(t, "thanks", 0);
    ContainsAt(t, "hi", 12);
    assert Contains(t, ThanksWords[0]);
  }

  /** On text without the two special characters, lower-casing is ASCII
      lower-casing character by character. */
  lemma {:induction false} LowerAsciiText(s: string)
    requires forall k :: 0 <= k < |s| ==> s[k] != '\U{130}' && s[k] != '\U{212A}'
    ensures |Lower(s)| == |s|
    ensures forall k :: 0 <= k < |s| ==> Lower(s)[k] == LowerAscii(s[k])
  {
    if s != [] {
      LowerAsciiText(s[1..]);
      assert Lower(s) == [LowerAscii(s[0])] + Lower(s[1..]);
    }
  }

  /** Adding text to a message can only move it up the cascade. */
  lemma AppendRaisesPriority(m: string, n: string)
    ensures Rank(Classify(m + n)) <= Rank(Classify(m))
  {
    LowerAppend(m, n);
    var a, b := Lower(m), Lower(n);
    assert Lower(m + n) == a + b;
    forall w | Contains(a, w) ensures Contains(a + b, w) {
      ContainsAppend(a, b, w);
    }
  }

  function UpperAsciiChar(c: char): char
  {
    if IsAsciiLower(c) then (c as int - 32) as char else c
  }

  /** ASCII upper case, character by character. */
  function UpperAscii(s: string): (r: string)
    ensures |r| == |s|
    ensures forall k :: 0 <= k < |s| ==> r[k] == UpperAsciiChar(s[k])
  {
    if s == [] then [] else [UpperAsciiChar(s[0])] + UpperAscii(s[1..])
  }

  /** The cascade ignores ASCII case: writing a message in capitals picks
      the same reply. */
  lemma {:induction false} ClassifyIgnoresCase(m: string)
    ensures Classify(UpperAscii(m)) == Classify(m)
  {
    LowerUpper(m);
  }

  lemma {:induction false} LowerUpper(m: string)
    ensures Lower(UpperAscii(m)) == Lower(m)
  {
    if m != [] {
      LowerUpper(m[1..]);
      var u := UpperAscii(m);
      assert u[1..] == UpperAscii(m[1..]);
      assert LowerChar(u[0]) == LowerChar(m[0]);
    }
  }

  // ---------------------------------------------------------------------
  // The product reply

  const CommissionLine: string := "\U{2728} Is link se purchase karne par mujhe commission milegi! Thank you! \U{1F60A}"

  function TitleLine(title: string): string
  {
    "\U{1F6CD}\U{FE0F} **" + title + "**\n\n"
  }

  function PriceLine(price: string): string
  {
    "\U{1F4B0} **Price:** " + price + "\n\n"
  }

  function LinkLine(url: string): string
  {
    "\U{1F517} **Yahan hai aapka affiliate link:**\n" + url + "\n\n"
  }

  /** `product_info.get('price')` is truthy. */
  predicate HasPrice(price: Option<string>) { price.Some? && price.value != "" }

  /** The reply `handle_amazon_url` composes. */
  function ProductReply(title: string, price: Option<string>, shortened: string): string
  {
    TitleLine(title) + (if HasPrice(price) then PriceLine(price.value) else "") + LinkLine(shortened) + CommissionLine
  }

  /** `response_message`, built up line by line. */
  method ComposeReply(title: string, price: Option<string>, shortened: string) returns (message: string)
    ensures message == ProductReply(title, price, shortened)
  {
    message := TitleLine(title);
    if price.Some? && price.value != "" {
      message := message + PriceLine(price.value);
    }
    message := message + LinkLine(shortened);
    message := message + CommissionLine;
  }

  /** The reply begins with the bold title line, holds the shortened link
      and ends with the commission sentence. */
  lemma ProductReplyLayout(title: string, price: Option<string>, shortened: string)
    ensures TitleLine(title) <= ProductReply(title, price, shortened)
    ensures Contains(ProductReply(title, price, shortened), shortened)
    ensures var r := ProductReply(title, price, shortened);
      |r| >= |CommissionLine| && r[|r| - |CommissionLine|..] == CommissionLine
  {
    var p := if HasPrice(price) then PriceLine(price.value) else "";
    var r := ProductReply(title, price, shortened);
    var before := TitleLine(title) + p;
    var link := LinkLine(shortened);
    assert r == before + link + CommissionLine;
    var at := |before| + |"\U{1F517} **Yahan hai aapka affiliate link:**\n"|;
    assert r[at..at + |shortened|] == shortened;
    ContainsAt(r, shortened, at);
  }

  /** The price line is there exactly when the price is truthy: the reply
      with a price differs from the one without. */
  lemma PriceLineIff(title: string, price: Option<string>, shortened: string)
    ensures ProductReply(title, price, shortened) == ProductReply(title, None, shortened) <==> !HasPrice(price)
    ensures HasPrice(price) ==> TitleLine(title) + PriceLine(price.value) <= ProductReply(title, price, shortened)
    ensures !HasPrice(price) ==> TitleLine(title) + LinkLine(shortened) <= ProductReply(title, price, shortened)
  {
    var t, l := TitleLine(title), LinkLine(shortened);
    if HasPrice(price) {
      var p := PriceLine(price.value);
      assert |p| > 0;
      ReplyPieces(t, p, l, CommissionLine);
    } else {
      ReplyPieces(t, "", l, CommissionLine);
    }
  }

  /** The reply's pieces in order: the first two are a prefix, and a
      non-empty middle piece makes it longer than the reply without it. */
  lemma ReplyPieces(t: string, p: string, l: string, c: string)
    ensures t + p <= t + p + l + c && t + l <= t + "" + l + c
    ensures |t + p + l + c| == |t + "" + l + c| + |p|
  {
    assert t + "" == t;
  }
}
