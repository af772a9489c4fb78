/** The decision rules of the scraper: canonicalising a product URL around
    its ASIN, picking the title, price and image from the candidates the
    page offers, and writing the affiliate tag into a URL. Fetching the page
    and evaluating CSS selectors are not modelled: each selector's outcome is
    an input, one entry per selector, in selector order. */
module AmazonScraper {
  import opened Text
  import opened UrlLib

  const AffiliateTag: string := "budgetlooks08-21"
  const TagKey: string := "tag"
  const DefaultTitle: string := "Amazon Product"
  const MaxTitleLength: nat := 200

  const TitleSelectors: seq<string> := ["#productTitle", ".product-title", "h1.a-size-large",
    "h1 span", "[data-automation-id=\"product-title\"]"]

  const PriceSelectors: seq<string> := [".a-price .a-offscreen", ".a-price-whole",
    "#price_inside_buybox", ".a-price.a-text-price.a-size-medium.apexPriceToPay",
    "[data-automation-id=\"product-price\"]", ".a-price-range"]

  const ImageSelectors: seq<string> := ["#landingImage", "#imgBlkFront", "#main-image",
    ".a-dynamic-image", "[data-automation-id=\"product-image\"]"]

  // ---------------------------------------------------------------------
  // The ASIN and the canonical product URL

  predicate IsAsinChar(c: char) { IsAsciiUpper(c) || IsAsciiDigit(c) }

  /** Ten characters from `[A-Z0-9]`. */
  predicate IsAsin(a: string)
  {
    |a| == 10 && forall k :: 0 <= k < |a| ==> IsAsinChar(a[k])
  }

  /** The pattern `/(?:dp|gp/product)/([A-Z0-9]{10})` tried at the start of
      `t`: the captured ASIN when it matches there. */
  function AsinPrefix(t: string): (r: Option<string>)
    ensures r.Some? ==> IsAsin(r.value)
    ensures r.Some? ==>
      || (|t| >= 14 && t[..4] == "/dp/" && r.value == t[4..14])
      || (|t| >= 22 && t[..12] == "/gp/product/" && r.value == t[12..22])
    ensures r.Some? ==> |t| >= 14 && t[0] == '/' && (t[1] == 'd' || t[1] == 'g') && t[2] == 'p'
                        && t[3] == '/' && t[4] != 'd'
  {
    if |t| >= 14 && t[..4] == "/dp/" && IsAsin(t[4..14]) then
      assert t[4] == t[4..14][0];
      Some(t[4..14])
    else if |t| >= 22 && t[..12] == "/gp/product/" && IsAsin(t[12..22]) then
      assert t[4] == t[..12][4];
      Some(t[12..22])
    else None
  }

  /** Where `re.search` finds the ASIN pattern: the leftmost position, or `|s|`. */
  function AsinIndex(s: string): (i: nat)
    ensures i <= |s|
    ensures i < |s| ==> AsinPrefix(s[i..]).Some?
    ensures forall j :: 0 <= j < i ==> AsinPrefix(s[j..]).None?
    ensures i == |s| ==> AsinPrefix(s[i..]).None?
  {
    if s == [] then 0
    else if AsinPrefix(s).Some? then 0
    else
      var i := 1 + AsinIndex(s[1..]);
      assert forall j :: 1 <= j <= |s| ==> s[j..] == s[1..][j - 1..];
      i
  }

  /** `re.search(asin_pattern, url)` and its group 1. */
  function FindAsin(s: string): (r: Option<string>)
    ensures r.Some? ==> IsAsin(r.value) && Contains(s, r.value)
    ensures r.None? <==> forall j :: 0 <= j <= |s| ==> AsinPrefix(s[j..]).None?
  {
    var i := AsinIndex(s);
    if i < |s| then
      AsinPrefixContained(s, i);
      AsinPrefix(s[i..])
    else None
  }

  lemma AsinPrefixContained(s: string, i: nat)
    requires i <= |s| && AsinPrefix(s[i..]).Some?
    ensures Contains(s, AsinPrefix(s[i..]).value)
  {
    var t := s[i..];
    var a := AsinPrefix(t).value;
    if |t| >= 14 && t[..4] == "/dp/" && a == t[4..14] {
      assert s[i + 4..i + 14] == a;
      ContainsAt(s, a, i + 4);
    } else {
      assert s[i + 12..i + 22] == a;
      ContainsAt(s, a, i + 12);
    }
  }

  /** `_clean_amazon_url`: `https://<netloc>/dp/<ASIN>`, or None when the URL
      holds no ASIN or `urlparse` raises. */
  function CleanAmazonUrl(url: string): (r: Option<string>)
    ensures r.Some? <==> FindAsin(url).Some? && UrlParse(url).Parsed?
    ensures r.Some? ==> |r.value| == |UrlParse(url).parts.netloc| + 22
    ensures r.Some? ==> "https://" <= r.value
    ensures r.Some? ==> r.value == "https://" + UrlParse(url).parts.netloc + "/dp/" + FindAsin(url).value
  {
    match FindAsin(url)
    case None => None
    case Some(asin) =>
      match UrlParse(url)
      case ValueError => None
      case Parsed(parts) => Some("https://" + parts.netloc + "/dp/" + asin)
  }

  /** Cleaning a clean URL gives it back unchanged. */
  lemma CleanIdempotent(url: string)
    requires CleanAmazonUrl(url).Some?
    ensures CleanAmazonUrl(CleanAmazonUrl(url).value) == CleanAmazonUrl(url)
  {
    var asin := FindAsin(url).value;
    var parts := UrlParse(url).parts;
    CleanParts(parts.netloc, asin);
    var c := UrlParts("https", parts.netloc, "/dp/" + asin, "", "", "");
    UnparseParse(c);
    CleanAsin(parts.netloc, asin);
    CleanFixed(c, asin);
  }

  lemma CleanFixed(c: UrlParts, asin: string)
    requires c.path == "/dp/" + asin
    requires FindAsin(UrlUnparse(c)) == Some(asin)
    requires UrlParse(UrlUnparse(c)) == Parsed(c)
    requires UrlUnparse(c) == "https://" + c.netloc + "/dp/" + asin
    ensures CleanAmazonUrl(UrlUnparse(c)) == Some(UrlUnparse(c))
  {
  }

  /** The parts of a clean URL are well formed and `urlunparse` writes it. */
  lemma CleanParts(netloc: string, asin: string)
    requires IsAsin(asin) && NoUnsafe(netloc) && BracketsBalanced(netloc)
    requires '/' !in netloc && '?' !in netloc && '#' !in netloc
    ensures WellFormed(UrlParts("https", netloc, "/dp/" + asin, "", "", ""))
    ensures UrlUnparse(UrlParts("https", netloc, "/dp/" + asin, "", "", "")) == "https://" + netloc + "/dp/" + asin
  {
    var path := "/dp/" + asin;
    CleanPath(asin);
    HttpsScheme();
    assert NoParamsSeparator(path);
    CleanUnparse(netloc, path);
  }

  /** `urlunparse` writes the clean URL from its parts. */
  lemma CleanUnparse(netloc: string, path: string)
    requires "https" in UsesNetloc && path != [] && path[0] == '/'
    ensures UrlUnparse(UrlParts("https", netloc, path, "", "", "")) == "https://" + netloc + path
  {
    CleanUnsplit(netloc, path);
    assert JoinParams(path, "") == path;
  }

  lemma CleanUnsplit(netloc: string, path: string)
    requires "https" in UsesNetloc && path != [] && path[0] == '/'
    ensures UrlUnsplit("https", netloc, path, "", "") == "https://" + netloc + path
  {
    assert Hierarchy("https", netloc, path) == "//" + netloc + path;
  }

  /** The clean path holds no delimiter and nothing that `urlsplit` deletes. */
  lemma CleanPath(asin: string)
    requires IsAsin(asin)
    ensures var path := "/dp/" + asin;
      && path[0] == '/' && ';' !in path && '?' !in path && '#' !in path && NoUnsafe(path)
  {
    var path := "/dp/" + asin;
    forall k | 0 <= k < |path| ensures path[k] != ';' && path[k] != '?' && path[k] != '#'
      && path[k] != '\t' && path[k] != '\r' && path[k] != '\n' {
      if k >= 4 { assert path[k] == asin[k - 4]; }
    }
  }

  lemma HttpsScheme()
    ensures SchemeOk("https") && "https" in UsesParams && "https" in UsesNetloc
  {
  }

  /** In a clean URL the first ASIN match is the one after the network location. */
  lemma CleanAsin(netloc: string, asin: string)
    requires IsAsin(asin) && '/' !in netloc
    ensures FindAsin("https://" + netloc + "/dp/" + asin) == Some(asin)
  {
    var r := "https://" + netloc + "/dp/" + asin;
    var n := 8 + |netloc|;
    var t := r[n..];
    assert t == "/dp/" + asin;
    assert t[..4] == "/dp/" && t[4..14] == asin;
    assert AsinPrefix(t) == Some(asin);
    forall j | 0 <= j < n ensures AsinPrefix(r[j..]).None? {
      if j == 6 {
        assert r[j..][1] == '/';
      } else if j == 7 {
        NoAsinAfterScheme(netloc, asin);
      } else if j < 6 {
        assert r[j..][0] == r[j] != '/';
      } else {
        assert r[j] == netloc[j - 8];
        assert r[j..][0] != '/';
      }
    }
    FindAsinAt(r, n);
  }

  /** The match found at `n` after positions with none is the one `re.search` returns. */
  lemma FindAsinAt(s: string, n: nat)
    requires n < |s| && AsinPrefix(s[n..]).Some?
    requires forall j :: 0 <= j < n ==> AsinPrefix(s[j..]).None?
    ensures FindAsin(s) == AsinPrefix(s[n..])
  {
  }

  lemma NoAsinAfterScheme(netloc: string, asin: string)
    requires IsAsin(asin) && '/' !in netloc
    ensures AsinPrefix(("https://" + netloc + "/dp/" + asin)[7..]).None?
  {
    var t := ("https://" + netloc + "/dp/" + asin)[7..];
    assert t == "/" + netloc + "/dp/" + asin;
    if |netloc| == 0 {
      assert t[2] == 'd';
    } else if |netloc| == 1 {
      assert t[2] == '/';
    } else if |netloc| == 2 {
      assert t[4] == 'd';
    } else {
      assert t[3] == netloc[2];
    }
  }

  // ---------------------------------------------------------------------
  // First-match-wins selection of the title and the price

  /** The position of the first candidate that `ok` accepts, or `|found|`. */
  function FirstWhere(found: seq<Option<string>>, ok: Option<string> -> bool): (i: nat)
    ensures i <= |found|
    ensures i < |found| ==> ok(found[i])
    ensures forall j :: 0 <= j < i ==> !ok(found[j])
  {
    if found == [] then 0
    else if ok(found[0]) then 0
    else 1 + FirstWhere(found[1..], ok)
  }

  /** A position that `ok` accepts after positions it all rejects is the first. */
  lemma FirstWhereAt(found: seq<Option<string>>, ok: Option<string> -> bool, i: nat)
    requires i <= |found|
    requires i < |found| ==> ok(found[i])
    requires forall j :: 0 <= j < i ==> !ok(found[j])
    ensures FirstWhere(found, ok) == i
  {
  }

  /** A title candidate counts when its stripped text is not empty. */
  predicate TitleOk(o: Option<string>) { o.Some? && o.value != "" }

  /** A price candidate counts when its stripped text is not empty and holds
      a digit. */
  predicate PriceOk(o: Option<string>) { o.Some? && o.value != "" && HasDigit(o.value) }

  /** The title `_extract_title` returns for the stripped texts of the
      elements its selectors find. */
  function TitleOf(found: seq<Option<string>>): (title: string)
    ensures 0 < |title| <= MaxTitleLength
    ensures FirstWhere(found, TitleOk) < |found| ==> title <= found[FirstWhere(found, TitleOk)].value
    ensures FirstWhere(found, TitleOk) == |found| ==> title == DefaultTitle
  {
    var i := FirstWhere(found, TitleOk);
    if i < |found| then Truncate(found[i].value, MaxTitleLength) else DefaultTitle
  }

  /** The price `_extract_price` returns. */
  function PriceOf(found: seq<Option<string>>): (price: Option<string>)
    ensures price.Some? ==> price.value != "" && HasDigit(price.value)
    ensures price.None? <==> forall j :: 0 <= j < |found| ==> !PriceOk(found[j])
    ensures price.Some? ==> exists j :: 0 <= j < |found| && found[j] == price
  {
    var i := FirstWhere(found, PriceOk);
    if i < |found| then found[i] else None
  }

  /** `_extract_title`: the first non-empty candidate, cut to 200
      characters, or the default title. */
  method ExtractTitle(found: seq<Option<string>>) returns (title: string)
    requires |found| == |TitleSelectors|
    ensures title == TitleOf(found)
  {
    for i := 0 to |found|
      invariant forall j :: 0 <= j < i ==> !TitleOk(found[j])
    {
      if found[i].Some? {
        var text := found[i].value;
        if text != "" {
          FirstWhereAt(found, TitleOk, i);
          return Truncate(text, MaxTitleLength);
        }
      }
    }
    FirstWhereAt(found, TitleOk, |found|);
    return DefaultTitle;
  }

  /** `_extract_price`: the first non-empty candidate that holds a digit. */
  method ExtractPrice(found: seq<Option<string>>) returns (price: Option<string>)
    requires |found| == |PriceSelectors|
    ensures price == PriceOf(found)
  {
    for i := 0 to |found|
      invariant forall j :: 0 <= j < i ==> !PriceOk(found[j])
    {
      if found[i].Some? {
        var text := found[i].value;
        if text != "" && HasDigit(text) {
          FirstWhereAt(found, PriceOk, i);
          return Some(text);
        }
      }
    }
    FirstWhereAt(found, PriceOk, |found|);
    return None;
  }

  /** The first non-empty candidate decides the title, cut to 200
      characters, whatever the later selectors find. */
  lemma TitleChoice(found: seq<Option<string>>, i: nat, rest: seq<Option<string>>)
    requires i < |found| && TitleOk(found[i])
    requires forall j :: 0 <= j < i ==> !TitleOk(found[j])
    ensures TitleOf(found + rest) == Truncate(found[i].value, MaxTitleLength)
  {
    FirstWhereAt(found + rest, TitleOk, i);
  }

  /** The price is the first candidate that qualifies, whatever follows it. */
  lemma PriceChoice(found: seq<Option<string>>, i: nat, rest: seq<Option<string>>)
    requires i < |found| && PriceOk(found[i])
    requires forall j :: 0 <= j < i ==> !PriceOk(found[j])
    ensures PriceOf(found + rest) == found[i]
  {
    FirstWhereAt(found + rest, PriceOk, i);
  }

  // ---------------------------------------------------------------------
  // The image URL

  /** What an element found by an image selector offers: its `src` and
      `data-src` attributes, when present. */
  datatype ImageElement = ImageElement(src: Option<string>, dataSrc: Option<string>)

  /** `img.get('src') or img.get('data-src')`. */
  function Candidate(e: ImageElement): Option<string>
  {
    if e.src.Some? && e.src.value != "" then e.src else e.dataSrc
  }

  predicate IsCodeChar(c: char) { IsAsciiUpper(c) || IsAsciiDigit(c) || c == '_' || c == ',' }

  /** The end of the run of `[A-Z0-9_,]` characters that starts at `i`. */
  function CodeRunEnd(s: string, i: nat): (e: nat)
    requires i <= |s|
    ensures i <= e <= |s|
    ensures forall k :: i <= k < e ==> IsCodeChar(s[k])
    ensures e < |s| ==> !IsCodeChar(s[e])
    decreases |s| - i
  {
    if i < |s| && IsCodeChar(s[i]) then CodeRunEnd(s, i + 1) else i
  }

  /** The first `m` characters of `s` match `\._[A-Z0-9_,]+_\.`: `._`, one
      or more class characters, `_` and `.`. */
  predicate ResizeCode(s: string, m: nat)
  {
    5 <= m <= |s| && s[0] == '.' && s[1] == '_' && s[m - 2] == '_' && s[m - 1] == '.'
    && forall k :: 2 <= k < m - 2 ==> IsCodeChar(s[k])
  }

  /** The length of the match of `\._[A-Z0-9_,]+_\.` at the start of `s`, or
      0 when there is none. The class holds `_` but not `.`, so the match
      must end at the first character after the run of class characters,
      and there is at most one match length. */
  function ResizeMatch(s: string): (n: nat)
    ensures n == 0 || (5 <= n <= |s| && s[..2] == "._" && s[n - 2] == '_' && s[n - 1] == '.')
    ensures n > 0 ==> forall k :: 2 <= k < n - 1 ==> IsCodeChar(s[k])
    ensures n > 0 ==> s[0] == '.' && s[1] == '_'
  {
    if |s| >= 2 && s[..2] == "._" then
      var e := CodeRunEnd(s, 2);
      if e >= 4 && s[e - 1] == '_' && e < |s| && s[e] == '.' then e + 1 else 0
    else 0
  }

  /** Every match of the pattern at the start of `s` is the one
      `ResizeMatch` finds: it ends just after the run of class characters
      behind its `._`, so there is exactly one. */
  lemma ResizeMatchComplete(s: string, m: nat)
    requires ResizeCode(s, m)
    ensures ResizeMatch(s) == m
  {
    CodeRunEndAt(s, 2, m - 1);
    assert s[..2] == "._";
  }

  /** `._`, a non-empty code of class characters, `_.`: the match is
      exactly that long, whatever follows. */
  lemma ResizeMatchCode(code: string, t: string)
    requires |code| >= 1 && forall k :: 0 <= k < |code| ==> IsCodeChar(code[k])
    ensures ResizeMatch("._" + code + "_." + t) == |code| + 4
  {
    var s := "._" + code + "_." + t;
    var m := |code| + 4;
    assert s[0] == '.' && s[1] == '_' && s[m - 2] == '_' && s[m - 1] == '.';
    forall k | 2 <= k < m - 2
      ensures IsCodeChar(s[k])
    {
      assert s[k] == code[k - 2];
    }
    ResizeMatchComplete(s, m);
  }

  /** `re.sub(r'\._[A-Z0-9_,]+_\.', '.', s)`: leftmost matches, scanning
      on after each replaced match (`StripResizeReplace`). */
  function StripResize(s: string): (r: string)
    ensures |r| <= |s|
    ensures s != [] ==> r != [] && r[0] == s[0]
    decreases |s|
  {
    if s == [] then []
    else
      var n := ResizeMatch(s);
      if n > 0 then "." + StripResize(s[n..]) else [s[0]] + StripResize(s[1..])
  }

  /** Text before the first `.` is kept as it is. */
  lemma {:induction false} StripResizeKeepsPrefix(s: string, p: string)
    requires p <= s && '.' !in p
    ensures p <= StripResize(s)
    decreases |s|
  {
    if p != [] {
      assert p[0] == s[0];
      StripResizeCopy(s);
      StripResizeKeepsPrefix(s[1..], p[1..]);
    }
  }

  /** A URL in which no match starts is left unchanged, whatever `._` it
      holds. */
  lemma StripResizeNoCode(s: string)
    requires NoMatchBetween(s, 0, |s|)
    ensures StripResize(s) == s
  {
    assert s[0..] == s;
    StripResizeKeepFrom(s, 0);
  }

  /** The index form of `StripResizeNoCode`: from `i` on, every character
      is copied. */
  lemma {:induction false} StripResizeKeepFrom(s: string, i: nat)
    requires i <= |s| && NoMatchBetween(s, i, |s|)
    ensures StripResize(s[i..]) == s[i..]
    decreases |s| - i
  {
    if i < |s| {
      assert MatchAt(s, i) == 0;
      StripResizeKeepFrom(s, i + 1);
      StripResizeStep(s, i, |s|, []);
      assert s[i..|s|] == s[i..] && s[i + 1..|s|] + [] == s[i + 1..];
    }
  }

  /** `re.sub` replaces a leftmost match by `.` and goes on after it:
      characters before the match (where no match starts) are copied. */
  lemma StripResizeReplace(p: string, m: string, t: string)
    requires forall k :: 0 <= k < |p| ==> MatchAt(p + m + t, k) == 0
    requires |m| > 0 && ResizeMatch(m + t) == |m|
    ensures StripResize(p + m + t) == p + "." + StripResize(t)
  {
    var s := p + m + t;
    assert s[|p|..] == m + t && s[|p| + |m|..] == t && s[..|p|] == p && s[0..] == s;
    assert NoMatchBetween(s, 0, |p|);
    StripResizeFrom(s, 0, |p|, |m|);
    ConcatAssoc(p, ".", StripResize(t));
  }

  /** The length of the match that starts at position `k` of `s`, or 0. */
  function MatchAt(s: string, k: nat): nat
    requires k <= |s|
  {
    ResizeMatch(s[k..])
  }

  /** No match of the pattern starts at a position in `[i, j)` of `s`. */
  predicate NoMatchBetween(s: string, i: nat, j: nat)
    requires j <= |s|
  {
    forall k :: i <= k < j ==> MatchAt(s, k) == 0
  }

  /** The index form of `StripResizeReplace`: from `i`, no match starts
      before `j`, and one of length `n` starts at `j`. */
  lemma {:induction false} StripResizeFrom(s: string, i: nat, j: nat, n: nat)
    requires i <= j <= |s| && 0 < n && MatchAt(s, j) == n
    requires NoMatchBetween(s, i, j)
    ensures StripResize(s[i..]) == s[i..j] + ("." + StripResize(s[j + n..]))
    decreases j - i
  {
    if i == j {
      StripResizeMatched(s, j, n);
    } else {
      StripResizeFrom(s, i + 1, j, n);
      StripResizeStep(s, i, j, "." + StripResize(s[j + n..]));
    }
  }

  lemma StripResizeMatched(s: string, j: nat, n: nat)
    requires j <= |s| && 0 < n && MatchAt(s, j) == n
    ensures StripResize(s[j..]) == s[j..j] + ("." + StripResize(s[j + n..]))
  {
    StripResizeAt(s[j..]);
    assert s[j..][n..] == s[j + n..] && s[j..j] == [];
  }

  /** One copied character in front of what is already known. */
  lemma StripResizeStep(s: string, i: nat, j: nat, x: string)
    requires i < j <= |s| && MatchAt(s, i) == 0
    requires StripResize(s[i + 1..]) == s[i + 1..j] + x
    ensures StripResize(s[i..]) == s[i..j] + x
  {
    StripResizeSkip(s[i..]);
    assert s[i..][1..] == s[i + 1..];
    assert s[i..j] == [s[i]] + s[i + 1..j];
    ConcatAssoc([s[i]], s[i + 1..j], x);
  }

  /** A match at the start is replaced by `.`. */
  lemma StripResizeAt(s: string)
    requires ResizeMatch(s) > 0
    ensures StripResize(s) == "." + StripResize(s[ResizeMatch(s)..])
  {
  }

  /** A character that starts no match is copied. */
  lemma StripResizeSkip(s: string)
    requires s != [] && ResizeMatch(s) == 0
    ensures StripResize(s) == [s[0]] + StripResize(s[1..])
  {
  }

  /** An image URL `p._CODE_.t` whose `p` holds no `._` loses its resize
      code: it becomes `p.` followed by the rest, itself cleaned. */
  lemma StripResizeCode(p: string, code: string, t: string)
    requires forall k :: 0 <= k < |p| - 1 ==> !(p[k] == '.' && p[k + 1] == '_')
    requires |code| >= 1 && forall k :: 0 <= k < |code| ==> IsCodeChar(code[k])
    ensures StripResize(p + "._" + code + "_." + t) == p + "." + StripResize(t)
  {
    var m := "._" + code + "_.";
    ResizeMatchCode(code, t);
    NoMatchBefore(p, m, t);
    StripResizeReplace(p, m, t);
    CodeLayout(p, code, t);
  }

  lemma CodeLayout(p: string, code: string, t: string)
    ensures p + "._" + code + "_." + t == p + ("._" + code + "_.") + t
  {
  }

  lemma NoMatchBefore(p: string, m: string, t: string)
    requires forall k :: 0 <= k < |p| - 1 ==> !(p[k] == '.' && p[k + 1] == '_')
    requires |m| > 0 && m[0] == '.'
    ensures forall k :: 0 <= k < |p| ==> MatchAt(p + m + t, k) == 0
  {
    var s := p + m + t;
    forall k | 0 <= k < |p|
      ensures MatchAt(s, k) == 0
    {
      NoMatchAt(s, k, p, m);
    }
  }

  lemma NoMatchAt(s: string, k: nat, p: string, m: string)
    requires p + m <= s && k < |p| && |m| > 0 && m[0] == '.'
    requires forall k :: 0 <= k < |p| - 1 ==> !(p[k] == '.' && p[k + 1] == '_')
    ensures MatchAt(s, k) == 0
  {
    var x := s[k..];
    assert x[0] == p[k];
    if k < |p| - 1 {
      assert x[1] == p[k + 1];
    } else {
      assert x[1] == (p + m)[|p|] == m[0];
    }
  }

  /** The candidate after `re.sub`: nothing when the element is missing or
      offers no non-empty URL. */
  function Cleaned(o: Option<ImageElement>): Option<string>
  {
    match o
    case None => None
    case Some(e) =>
      match Candidate(e)
      case None => None
      case Some(raw) => if raw == "" then None else Some(StripResize(raw))
  }

  /** What one image element yields: a URL, or nothing (so that the search
      moves on to the next selector). A cleaned candidate is taken when it
      is protocol-relative (and gains `https:`) or, not starting with `/`,
      starts with `http`; every other candidate is passed over. */
  function ImageFrom(o: Option<ImageElement>): (r: Option<string>)
    ensures r.Some? ==> "http" <= r.value
    ensures r.Some? <==> (Cleaned(o).Some?
      && ("//" <= Cleaned(o).value || (!("/" <= Cleaned(o).value) && "http" <= Cleaned(o).value)))
    ensures r.Some? ==> r.value == (if "//" <= Cleaned(o).value then "https:" else "") + Cleaned(o).value
  {
    match o
    case None => None
    case Some(e) =>
      match Candidate(e)
      case None => None
      case Some(raw) =>
        if raw == "" then None
        else
          var url := StripResize(raw);
          if "//" <= url then Some("https:" + url)
          else if "/" <= url then None
          else if "http" <= url then Some(url)
          else None
  }

  /** The image URL `_extract_image_url` returns. */
  function ImageOf(found: seq<Option<ImageElement>>): (r: Option<string>)
    ensures r.Some? ==> "http" <= r.value
    ensures r.Some? ==> exists j :: 0 <= j < |found| && ImageFrom(found[j]) == r
    ensures r.None? <==> forall j :: 0 <= j < |found| ==> ImageFrom(found[j]).None?
  {
    if found == [] then None
    else
      match ImageFrom(found[0])
      case Some(u) => Some(u)
      case None =>
        assert forall j :: 0 <= j < |found[1..]| ==> found[1..][j] == found[j + 1];
        ImageOf(found[1..])
  }

  /** The first selector whose element yields a URL decides the image. */
  lemma {:induction false} ImageChoice(found: seq<Option<ImageElement>>, i: nat, rest: seq<Option<ImageElement>>)
    requires i < |found| && ImageFrom(found[i]).Some?
    requires forall j :: 0 <= j < i ==> ImageFrom(found[j]).None?
    ensures ImageOf(found + rest) == ImageFrom(found[i])
    decreases i
  {
    var all := found + rest;
    assert all[0] == found[0];
    if i > 0 {
      assert all[1..] == found[1..] + rest;
      ImageChoice(found[1..], i - 1, rest);
    }
  }

  /** `_extract_image_url`. */
  method ExtractImageUrl(found: seq<Option<ImageElement>>) returns (image: Option<string>)
    requires |found| == |ImageSelectors|
    ensures image == ImageOf(found)
  {
    for i := 0 to |found|
      invariant ImageOf(found) == ImageOf(found[i..])
    {
      assert found[i..][1..] == found[i + 1..];
      if found[i].Some? {
        var candidate := Candidate(found[i].value);
        if candidate.Some? && candidate.value != "" {
          var url := StripResize(candidate.value);
          if "//" <= url {
            url := "https:" + url;
          } else if "/" <= url {
            continue;
          }
          if "http" <= url {
            return Some(url);
          }
        }
      }
    }
    assert found[|found|..] == [];
    return None;
  }

  /** A protocol-relative candidate is upgraded to `https:`, and a
      host-relative one is skipped, so that a later selector decides. */
  lemma ImageRelative(e: ImageElement, raw: string, rest: seq<Option<ImageElement>>)
    requires Candidate(e) == Some(raw)
    ensures "//" <= raw ==> ImageFrom(Some(e)) == Some("https:" + StripResize(raw))
    ensures "/" <= raw && !("//" <= raw) ==> ImageOf([Some(e)] + rest) == ImageOf(rest)
  {
    if "/" <= raw {
      var u := StripResize(raw);
      assert ResizeMatch(raw) == 0;
      assert u == [raw[0]] + StripResize(raw[1..]);
      if |raw| >= 2 {
        assert u[1] == raw[1];
      }
      assert ([Some(e)] + rest)[1..] == rest;
    }
  }

  /** The resize code in an image URL is removed:
      `//m.media-amazon.com/x._AC_SX300_.jpg` becomes
      `//m.media-amazon.com/x.jpg`. */
  lemma StripExample(p: string, code: string, t: string)
    requires p == "//m.media-amazon.com/x" && code == "AC_SX300" && t == "jpg"
    ensures StripResize(p + "._" + code + "_." + t) == p + ".jpg"
  {
    ExampleCode(code);
    StripResizeSuffix(p, code, t);
    assert p + "." + t == p + ".jpg";
  }

  /** A resize code between a stem without `_` and a suffix without `.`
      is the only thing removed. */
  lemma StripResizeSuffix(p: string, code: string, t: string)
    requires '_' !in p && '.' !in t
    requires |code| >= 1 && forall k :: 0 <= k < |code| ==> IsCodeChar(code[k])
    ensures StripResize(p + "._" + code + "_." + t) == p + "." + t
  {
    NoUnderscore(p);
    StripResizeCode(p, code, t);
    NoDotNoMatch(t);
    StripResizeNoCode(t);
  }

  /** Every match starts with `.`, so text without one holds no match. */
  lemma NoDotNoMatch(s: string)
    requires '.' !in s
    ensures NoMatchBetween(s, 0, |s|)
  {
    forall k | 0 <= k < |s|
      ensures MatchAt(s, k) == 0
    {
      assert s[k..][0] == s[k];
    }
  }

  /** The protocol-relative result then gains `https:`:
      `https://m.media-amazon.com/x.jpg`. */
  lemma ImageExample(p: string, code: string, t: string)
    requires p == "//m.media-amazon.com/x" && code == "AC_SX300" && t == "jpg"
    ensures ImageFrom(Some(ImageElement(Some(p + "._" + code + "_." + t), None))) == Some("https:" + p + ".jpg")
  {
    StripExample(p, code, t);
    assert (p + ".jpg")[..2] == p[..2] == "//";
    ConcatAssoc("https:", p, ".jpg");
  }

  lemma NoUnderscore(p: string)
    requires '_' !in p
    ensures forall k :: 0 <= k < |p| - 1 ==> !(p[k] == '.' && p[k + 1] == '_')
  {
  }

  lemma ExampleCode(code: string)
    requires code == "AC_SX300"
    ensures |code| >= 1 && forall k :: 0 <= k < |code| ==> IsCodeChar(code[k])
  {
  }

  lemma {:induction false} CodeRunEndAt(s: string, i: nat, e: nat)
    requires i <= e < |s| && !IsCodeChar(s[e])
    requires forall k :: i <= k < e ==> IsCodeChar(s[k])
    ensures CodeRunEnd(s, i) == e
    decreases e - i
  {
    if i < e {
      CodeRunEndAt(s, i + 1, e);
    }
  }

  /** A character that starts no match is copied. */
  lemma StripResizeCopy(s: string)
    requires s != [] && (s[0] != '.' || |s| < 2 || s[1] != '_')
    ensures StripResize(s) == [s[0]] + StripResize(s[1..])
  {
    assert ResizeMatch(s) == 0;
  }

  // ---------------------------------------------------------------------
  // The affiliate link

  /** The query after `query_params['tag'] = [affiliate_tag]`. */
  function Retag(c: UrlParts): UrlParts
  {
    c.(query := Urlencode(Assign(ParseQs(c.query), TagKey, [AffiliateTag])))
  }

  /** The `except` branch of `generate_affiliate_link`. */
  function AffiliateFallback(url: string): (r: string)
    ensures |r| == |url| + 1 + |"tag="| + |AffiliateTag|
    ensures url <= r
    ensures r[|url| + 1..] == "tag=" + AffiliateTag
    ensures r[|url|] == (if '?' in url then '&' else '?')
  {
    url + (if '?' in url then "&" else "?") + "tag=" + AffiliateTag
  }

  /** The link `generate_affiliate_link` returns: the naive fallback when
      `urlparse` raises, and otherwise a link that reads back as the same
      URL with the affiliate tag set. */
  function AffiliateLink(url: string): (r: string)
    ensures UrlParse(url).ValueError? ==> r == AffiliateFallback(url)
    ensures UrlParse(url).Parsed? ==> Tagged(UrlParse(url).parts, r)
  {
    match UrlParse(url)
    case ValueError => AffiliateFallback(url)
    case Parsed(c) => RetagTagged(c); UrlUnparse(Retag(c))
  }

  /** What `urlparse` reads back from a tagged link: the same scheme,
      network location, path, params and fragment, a query whose `tag` is
      exactly the affiliate tag, and every other key with the values
      `parse_qs` read from the original query. */
  ghost predicate Tagged(c: UrlParts, link: string)
  {
    && UrlParse(link).Parsed?
    && var t := UrlParse(link).parts;
    && t.scheme == c.scheme && t.netloc == c.netloc && t.path == c.path
    && t.params == c.params && t.fragment == c.fragment
    && Lookup(ParseQs(t.query), TagKey) == Some([AffiliateTag])
    && CountKey(ParseQsl(t.query), TagKey) == 1
    && (forall k :: k != TagKey ==> Lookup(ParseQs(t.query), k) == Lookup(ParseQs(c.query), k))
  }

  /** `generate_affiliate_link`: set the `tag` query parameter, or append
      it naively when `urlparse` raises. */
  method GenerateAffiliateLink(url: string) returns (link: string)
    ensures link == AffiliateLink(url)
    ensures UrlParse(url).ValueError? ==> link == AffiliateFallback(url)
    ensures UrlParse(url).Parsed? ==> Tagged(UrlParse(url).parts, link)
  {
    var outcome := UrlParse(url);
    if outcome.ValueError? {
      var separator := if '?' in url then "&" else "?";
      return url + separator + "tag=" + AffiliateTag;
    }
    var parsed := outcome.parts;
    var queryParams := ParseQs(parsed.query);
    queryParams := Assign(queryParams, TagKey, [AffiliateTag]);
    var newQuery := Urlencode(queryParams);
    link := UrlUnparse(parsed.(query := newQuery));
  }

  /** The tagged parts are well formed, and their query holds the tag once. */
  lemma RetagWellFormed(c: UrlParts)
    requires WellFormed(c)
    ensures WellFormed(Retag(c))
    ensures ParseQs(Retag(c).query) == Assign(ParseQs(c.query), TagKey, [AffiliateTag])
    ensures DictOk(ParseQs(Retag(c).query))
  {
    TagOk();
    TagQuery(c.query, TagKey, AffiliateTag);
    WithQuery(c, Retag(c).query);
  }

  /** Setting a key in a query that `urlsplit` can return gives a query
      that reads back as the assigned dictionary. */
  lemma TagQuery(q: string, k: string, v: string)
    requires '#' !in q && NoUnsafe(q)
    requires KeyOk(k) && ValueOk(v)
    ensures DictOk(Assign(ParseQs(q), k, [v]))
    ensures '#' !in Urlencode(Assign(ParseQs(q), k, [v]))
    ensures NoUnsafe(Urlencode(Assign(ParseQs(q), k, [v])))
    ensures ParseQs(Urlencode(Assign(ParseQs(q), k, [v]))) == Assign(ParseQs(q), k, [v])
  {
    var d := Assign(ParseQs(q), k, [v]);
    AssignOk(ParseQs(q), k, [v]);
    QueryRoundTrip(d);
  }

  /** The affiliate tag and its key can be written into a query as they are. */
  lemma TagOk()
    ensures KeyOk(TagKey) && ValueOk(AffiliateTag)
  {
    TagChars(TagKey);
    TagChars(AffiliateTag);
  }

  predicate IsTagChar(c: char)
  {
    IsAsciiLower(c) || IsAsciiDigit(c) || c == '-'
  }

  lemma TagChars(s: string)
    requires forall i :: 0 <= i < |s| ==> IsTagChar(s[i])
    ensures '&' !in s && '=' !in s && '#' !in s && NoUnsafe(s)
  {
  }

  lemma RetagTagged(c: UrlParts)
    requires WellFormed(c)
    ensures Tagged(c, UrlUnparse(Retag(c)))
  {
    var d0 := ParseQs(c.query);
    var d := Assign(d0, TagKey, [AffiliateTag]);
    RetagWellFormed(c);
    UnparseParse(Retag(c));
    AssignLookup(d0, TagKey, [AffiliateTag], TagKey);
    forall k | k != TagKey
      ensures Lookup(ParseQs(Retag(c).query), k) == Lookup(d0, k)
    {
      AssignLookup(d0, TagKey, [AffiliateTag], k);
    }
    FlattenOk(d);
    ParseQslEncoded(Flatten(d));
    CountKeyFlatten(d, TagKey);
  }

  /** Tagging a link that `urlparse` accepts a second time changes nothing. */
  lemma AffiliateIdempotent(url: string)
    requires UrlParse(url).Parsed?
    ensures AffiliateLink(AffiliateLink(url)) == AffiliateLink(url)
  {
    var c := UrlParse(url).parts;
    RetagWellFormed(c);
    UnparseParse(Retag(c));
    var d := Assign(ParseQs(c.query), TagKey, [AffiliateTag]);
    AssignLookup(ParseQs(c.query), TagKey, [AffiliateTag], TagKey);
    AssignSame(d, TagKey, [AffiliateTag]);
    assert Retag(Retag(c)) == Retag(c);
  }

  /** Assigning a key the values it already has changes nothing. */
  lemma AssignSame(d: QueryDict, k: string, vs: seq<string>)
    requires Lookup(d, k) == Some(vs)
    ensures Assign(d, k, vs) == d
  {
    var i := KeyIndex(d, k);
    assert d[i] == (k, vs);
  }
}
