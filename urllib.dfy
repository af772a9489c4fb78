/** The parts of Python's `urllib.parse` that the scraper calls — `urlparse`,
    `urlunparse`, `parse_qs` and `urlencode(..., doseq=True)` — with the
    behaviour Python 3.13 gives them. Percent-encoding and decoding are not
    modelled: keys and values are carried as they appear in the query. */
module UrlLib {
  import opened Text

  /** `urllib.parse.ParseResult`. */
  datatype UrlParts = UrlParts(scheme: string, netloc: string, path: string,
                               params: string, query: string, fragment: string)

  /** `urlparse` either returns its six parts or raises `ValueError`. */
  datatype ParseOutcome = Parsed(parts: UrlParts) | ValueError

  /** `urllib.parse.uses_params`: schemes whose last path segment may carry `;params`. */
  const UsesParams: set<string> := {"", "ftp", "hdl", "prospero", "http", "imap", "https",
    "shttp", "rtsp", "rtsps", "rtspu", "sip", "sips", "mms", "sftp", "tel"}

  /** `urllib.parse.uses_netloc`: schemes that `urlunsplit` writes with `//`. */
  const UsesNetloc: set<string> := {"", "ftp", "http", "gopher", "nntp", "telnet", "imap",
    "wais", "file", "mms", "https", "shttp", "snews", "prospero", "rtsp", "rtsps", "rtspu",
    "rsync", "svn", "svn+ssh", "sftp", "nfs", "git", "git+ssh", "ws", "wss", "itms-services"}

  /** The characters that end the network location. */
  const NetlocDelims: set<char> := {'/', '?', '#'}

  predicate IsSchemeChar(c: char)
  {
    IsAsciiLetter(c) || IsAsciiDigit(c) || c == '+' || c == '-' || c == '.'
  }

  /** The WHATWG "C0 control or space" characters that `urlsplit` strips on the left. */
  predicate IsC0OrSpace(c: char) { c <= ' ' }

  /** Tab, carriage return and line feed, which `urlsplit` deletes everywhere. */
  predicate NoUnsafe(s: string) { '\t' !in s && '\r' !in s && '\n' !in s }

  function LStripC0(s: string): (r: string)
    ensures |r| <= |s| && r == s[|s| - |r|..]
    ensures r == [] || !IsC0OrSpace(r[0])
    ensures forall k :: 0 <= k < |s| - |r| ==> IsC0OrSpace(s[k])
  {
    if |s| > 0 && IsC0OrSpace(s[0]) then LStripC0(s[1..]) else s
  }

  predicate IsUnsafe(c: char) { c == '\t' || c == '\r' || c == '\n' }

  /** Deletes tab, carriage return and line feed and keeps every other
      character, in order: a single character is kept exactly when it is
      not one of the three, and the deletion distributes over
      concatenation (`RemoveUnsafeAppend`). */
  function RemoveUnsafe(s: string): (r: string)
    ensures NoUnsafe(r)
    ensures |s| == 1 ==> r == (if IsUnsafe(s[0]) then [] else s)
    ensures |s| > 0 && !IsC0OrSpace(s[0]) ==> |r| > 0 && r[0] == s[0]
    ensures NoUnsafe(s) ==> r == s
  {
    if s == [] then []
    else (if IsUnsafe(s[0]) then [] else [s[0]]) + RemoveUnsafe(s[1..])
  }

  lemma {:induction false} RemoveUnsafeAppend(a: string, b: string)
    ensures RemoveUnsafe(a + b) == RemoveUnsafe(a) + RemoveUnsafe(b)
  {
    if a == [] {
      assert a + b == b;
    } else {
      var c := a + b;
      assert c[0] == a[0] && c[1..] == a[1..] + b;
      var k := if IsUnsafe(a[0]) then [] else [a[0]];
      assert RemoveUnsafe(c) == k + RemoveUnsafe(a[1..] + b);
      RemoveUnsafeAppend(a[1..], b);
      assert RemoveUnsafe(a) == k + RemoveUnsafe(a[1..]);
      ConcatAssoc(k, RemoveUnsafe(a[1..]), RemoveUnsafe(b));
    }
  }

  /** What `urlsplit` does to its argument before splitting it: the leading
      C0-or-space characters go, and so do tab, carriage return and line feed
      in what follows; every other character stays. */
  function Sanitize(url: string): (r: string)
    ensures NoUnsafe(r)
    ensures r == [] || !IsC0OrSpace(r[0])
    ensures var i := |url| - |LStripC0(url)|;
      (forall k :: 0 <= k < i ==> IsC0OrSpace(url[k])) && r == RemoveUnsafe(url[i..])
  {
    RemoveUnsafe(LStripC0(url))
  }

  /** A text already in sanitized form is left as it is. */
  lemma SanitizeKeeps(s: string)
    requires NoUnsafe(s) && (s == [] || !IsC0OrSpace(s[0]))
    ensures Sanitize(s) == s
  {
  }

  /** `urlsplit`'s test for a scheme: a first `:` after one or more scheme
      characters, the first of them an ASCII letter. */
  predicate HasScheme(url: string)
  {
    var i := IndexOf(url, ':');
    0 < i < |url| && IsAsciiLetter(url[0]) && forall k :: 0 <= k < i ==> IsSchemeChar(url[k])
  }

  function AsciiLowerString(s: string): (r: string)
    ensures |r| == |s|
    ensures forall k :: 0 <= k < |s| ==> r[k] == LowerAscii(s[k])
  {
    seq(|s|, k requires 0 <= k < |s| => LowerAscii(s[k]))
  }

  /** The scheme, lower-cased, and the text after its `:`. */
  function SplitScheme(url: string): (r: (string, string))
    ensures HasScheme(url) ==> |r.0| < |url| && url == url[..|r.0|] + ":" + r.1 && r.0 == AsciiLowerString(url[..|r.0|])
    ensures !HasScheme(url) ==> r == ("", url)
    ensures r.0 == "" || IsAsciiLower(r.0[0])
    ensures forall k :: 0 <= k < |r.0| ==> IsSchemeChar(r.0[k]) && !IsAsciiUpper(r.0[k])
    ensures |r.1| <= |url| && r.1 == url[|url| - |r.1|..]
    ensures NoUnsafe(url) ==> NoUnsafe(r.1)
  {
    if HasScheme(url) then
      var i := IndexOf(url, ':');
      assert url == url[..i] + ":" + url[i + 1..];
      (AsciiLowerString(url[..i]), url[i + 1..])
    else ("", url)
  }

  /** `_splitnetloc(url, 2)` when `url` starts with `//`. */
  function SplitNetloc(url: string): (r: (string, string))
    ensures "//" <= url ==> url == "//" + r.0 + r.1
    ensures "//" <= url ==> '/' !in r.0 && '?' !in r.0 && '#' !in r.0
    ensures "//" <= url ==> r.1 == [] || r.1[0] in NetlocDelims
    ensures !("//" <= url) ==> r == ("", url)
    ensures NoUnsafe(url) ==> NoUnsafe(r.0) && NoUnsafe(r.1)
  {
    if "//" <= url then
      var d := IndexOfAny(url[2..], NetlocDelims);
      assert url == "//" + url[2..][..d] + url[2..][d..];
      (url[2..][..d], url[2..][d..])
    else ("", url)
  }

  /** `urlsplit`'s test on the network location: a bracket without its partner
      raises "Invalid IPv6 URL". */
  predicate BracketsBalanced(netloc: string)
  {
    ('[' in netloc <==> ']' in netloc)
  }

  /** `s.split(c, 1)` when `c in s`, and `(s, "")` otherwise. */
  function SplitFirst(s: string, c: char): (r: (string, string))
    ensures c in s ==> s == r.0 + [c] + r.1 && c !in r.0
    ensures c !in s ==> r == (s, "")
    ensures r.0 <= s
    ensures s != [] && s[0] != c ==> r.0 != [] && r.0[0] == s[0]
    ensures s == [] || s[0] == c ==> r.0 == []
    ensures forall d :: d !in s ==> d !in r.0 && d !in r.1
  {
    var i := IndexOf(s, c);
    if i < |s| then
      assert s == s[..i] + [c] + s[i + 1..];
      (s[..i], s[i + 1..])
    else (s, "")
  }

  /** No `;` after the last `/` of `path` (anywhere, when it has no `/`). */
  predicate NoParamsSeparator(path: string)
  {
    forall k :: LastIndexOf(path, '/') < k < |path| ==> path[k] != ';'
  }

  /** Where `_splitparams` cuts: the first `;` after the last `/` (after
      the start when there is no `/`), or `|url|` when there is none. */
  function ParamsCut(url: string): (i: nat)
    ensures LastIndexOf(url, '/') < i <= |url|
    ensures i < |url| ==> url[i] == ';'
    ensures forall k :: LastIndexOf(url, '/') < k < i ==> url[k] != ';'
  {
    IndexFrom(url, ';', LastIndexOf(url, '/') + 1)
  }

  /** `s.find(c, i)`: the first position at or after `i` that holds `c`, or `|s|`. */
  function IndexFrom(s: string, c: char, i: nat): (r: nat)
    requires i <= |s|
    ensures i <= r <= |s|
    ensures r < |s| ==> s[r] == c
    ensures forall m :: i <= m < r ==> s[m] != c
    decreases |s| - i
  {
    if i == |s| || s[i] == c then i else IndexFrom(s, c, i + 1)
  }

  /** `_splitparams`: the path is cut at the first `;` after its last `/`. */
  function SplitParams(url: string): (r: (string, string))
    requires ';' in url
    ensures NoParamsSeparator(r.0)
    ensures (r.1 == "" && r.0 == url) || (url == r.0 + ";" + r.1 && '/' !in r.1)
    ensures r.0 <= url
    ensures url[0] == '/' ==> |r.0| > 0
  {
    var i := ParamsCut(url);
    if i == |url| then (url, "")
    else
      ParamsCutSplits(url, i);
      (url[..i], url[i + 1..])
  }

  lemma ParamsCutSplits(url: string, i: nat)
    requires LastIndexOf(url, '/') < i < |url| && url[i] == ';'
    requires forall k :: LastIndexOf(url, '/') < k < i ==> url[k] != ';'
    ensures url == url[..i] + ";" + url[i + 1..]
    ensures NoParamsSeparator(url[..i])
    ensures '/' !in url[i + 1..]
    ensures url[0] == '/' ==> i > 0
  {
    CutPrefix(url, i);
    CutSuffix(url, i);
    CutJoin(url, i);
  }

  lemma CutJoin(url: string, i: nat)
    requires i < |url| && url[i] == ';'
    ensures url == url[..i] + ";" + url[i + 1..]
  {
    assert url == url[..i] + [url[i]] + url[i + 1..];
  }

  lemma CutPrefix(url: string, i: nat)
    requires LastIndexOf(url, '/') < i <= |url|
    requires forall k :: LastIndexOf(url, '/') < k < i ==> url[k] != ';'
    ensures NoParamsSeparator(url[..i])
  {
    var pre := url[..i];
    assert url == pre + url[i..];
    LastIndexOfConcat(pre, url[i..], '/');
    assert forall k :: LastIndexOf(pre, '/') < k < |pre| ==> pre[k] == url[k];
  }

  lemma CutSuffix(url: string, i: nat)
    requires LastIndexOf(url, '/') < i < |url|
    ensures '/' !in url[i + 1..]
    ensures url[0] == '/' ==> i > 0
  {
    var post := url[i + 1..];
    assert forall k :: 0 <= k < |post| ==> post[k] == url[i + 1 + k];
  }

  /** Python 3.13's `urlparse`; every part it returns is well formed. */
  function UrlParse(url: string): (r: ParseOutcome)
    ensures r.Parsed? ==> WellFormed(r.parts)
  {
    var (scheme, afterScheme) := SplitScheme(Sanitize(url));
    var r := ParseAfterScheme(scheme, afterScheme);
    if r.Parsed? then
      ParseAfterSchemeWellFormed(scheme, afterScheme);
      r
    else r
  }

  /** `urlsplit` from the network location on: a bracket without its partner
      in the network location raises `ValueError`. */
  function ParseAfterScheme(scheme: string, afterScheme: string): ParseOutcome
  {
    var (netloc, rest) := SplitNetloc(afterScheme);
    if !BracketsBalanced(netloc) then ValueError else Parsed(SplitRest(scheme, netloc, rest))
  }

  /** What follows the network location: the fragment is cut off at the first
      `#`, then the query at the first `?`, then (in `urlparse`) the params. */
  function SplitRest(scheme: string, netloc: string, rest: string): UrlParts
  {
    var (beforeFragment, fragment) := SplitFirst(rest, '#');
    var (pathAndParams, query) := SplitFirst(beforeFragment, '?');
    var (path, params) := PathParams(scheme, pathAndParams);
    UrlParts(scheme, netloc, path, params, query, fragment)
  }

  /** No part that `SplitRest` finds holds the delimiter that ends it, nor a
      character that `rest` does not hold. */
  lemma SplitRestChars(scheme: string, netloc: string, rest: string, c: UrlParts)
    requires c == SplitRest(scheme, netloc, rest)
    ensures
      && c.scheme == scheme && c.netloc == netloc
      && '?' !in c.path && '#' !in c.path
      && '?' !in c.params && '#' !in c.params && '/' !in c.params
      && '#' !in c.query
      && (NoUnsafe(rest) ==> NoUnsafe(c.path) && NoUnsafe(c.params) && NoUnsafe(c.query) && NoUnsafe(c.fragment))
  {
    var (beforeFragment, fragment) := SplitFirst(rest, '#');
    var (pathAndParams, query) := SplitFirst(beforeFragment, '?');
    var (path, params) := PathParams(scheme, pathAndParams);
    assert '#' !in beforeFragment && '#' !in pathAndParams && '?' !in pathAndParams;
  }

  /** Path and params are the start of `rest`; an absolute `rest` gives an
      absolute path, and a `rest` that starts with the query or the fragment
      gives neither path nor params. */
  lemma SplitRestLayout(scheme: string, netloc: string, rest: string, c: UrlParts)
    requires c == SplitRest(scheme, netloc, rest)
    ensures
      && JoinParams(c.path, c.params) <= rest
      && (c.params != "" ==> scheme in UsesParams)
      && (scheme in UsesParams ==> NoParamsSeparator(c.path))
      && (rest != [] && rest[0] == '/' ==> c.path != [] && c.path[0] == '/')
      && (rest == [] || rest[0] == '?' || rest[0] == '#' ==> c.path == [] && c.params == [])
  {
    var (beforeFragment, fragment) := SplitFirst(rest, '#');
    var (pathAndParams, query) := SplitFirst(beforeFragment, '?');
    var (path, params) := PathParams(scheme, pathAndParams);
    PrefixTrans(JoinParams(path, params), pathAndParams, beforeFragment);
    PrefixTrans(JoinParams(path, params), beforeFragment, rest);
  }

  lemma PrefixTrans(a: string, b: string, c: string)
    requires a <= b && b <= c
    ensures a <= c
  {
    assert c[..|b|][..|a|] == c[..|a|];
  }

  /** `urlparse`'s last step: split off the params when the scheme uses them
      and the path holds a `;`. */
  function PathParams(scheme: string, url: string): (r: (string, string))
    ensures JoinParams(r.0, r.1) <= url
    ensures r.0 == url || url == r.0 + ";" + r.1
    ensures !(scheme in UsesParams && ';' in url) ==> r == (url, "")
    ensures r.1 != "" ==> url == r.0 + ";" + r.1 && '/' !in r.1 && scheme in UsesParams
    ensures scheme in UsesParams ==> NoParamsSeparator(r.0)
    ensures url != [] && url[0] == '/' ==> r.0 != [] && r.0[0] == '/'
    ensures url == [] ==> r == ([], [])
    ensures forall d :: d !in url ==> d !in r.0 && d !in r.1
  {
    if scheme in UsesParams && ';' in url then SplitParams(url) else (url, "")
  }

  /** The path as `urlunparse` hands it to `urlunsplit`. */
  function JoinParams(path: string, params: string): string
  {
    if params != "" then path + ";" + params else path
  }

  /** What `urlunsplit` writes between `scheme:` and the query. */
  function Hierarchy(scheme: string, netloc: string, url: string): string
  {
    if netloc != "" then "//" + netloc + (if url != "" && url[0] != '/' then "/" + url else url)
    else if "//" <= url then "//" + url
    else if scheme != "" && scheme in UsesNetloc && (url == "" || url[0] == '/') then "//" + url
    else url
  }

  function SchemePart(scheme: string): string { if scheme != "" then scheme + ":" else "" }

  function QueryPart(query: string): string { if query != "" then "?" + query else "" }

  function FragmentPart(fragment: string): string { if fragment != "" then "#" + fragment else "" }

  /** Python 3.13's `urlunsplit`. */
  function UrlUnsplit(scheme: string, netloc: string, url: string, query: string, fragment: string): string
  {
    SchemePart(scheme) + Hierarchy(scheme, netloc, url) + QueryPart(query) + FragmentPart(fragment)
  }

  /** Python 3.13's `urlunparse`: from safe parts it writes no tab, carriage
      return or line feed. */
  function UrlUnparse(c: UrlParts): (r: string)
    ensures SchemeOk(c.scheme) && Safe(c) ==> NoUnsafe(r)
  {
    UnparseSafe(c);
    UrlUnsplit(c.scheme, c.netloc, JoinParams(c.path, c.params), c.query, c.fragment)
  }

  /** The shape of every result of `urlparse`; `urlunparse` is its inverse on
      exactly these. */
  ghost predicate WellFormed(c: UrlParts)
  {
    SchemeOk(c.scheme) && Safe(c) && Delimited(c) && ParamsOk(c) && NetlocPathOk(c) && NoSchemeOk(c)
  }

  /** A scheme as `urlsplit` returns it: lower case, scheme characters only. */
  ghost predicate SchemeOk(scheme: string)
  {
    && (scheme == "" || IsAsciiLower(scheme[0]))
    && forall k :: 0 <= k < |scheme| ==> IsSchemeChar(scheme[k]) && !IsAsciiUpper(scheme[k])
  }

  /** No part holds a character that `urlsplit` deletes. */
  ghost predicate Safe(c: UrlParts)
  {
    NoUnsafe(c.netloc) && NoUnsafe(c.path) && NoUnsafe(c.params) && NoUnsafe(c.query) && NoUnsafe(c.fragment)
  }

  /** No part holds a delimiter that would end it. */
  ghost predicate Delimited(c: UrlParts)
  {
    && '/' !in c.netloc && '?' !in c.netloc && '#' !in c.netloc
    && BracketsBalanced(c.netloc)
    && '?' !in c.path && '#' !in c.path
    && '?' !in c.params && '#' !in c.params && '/' !in c.params
    && '#' !in c.query
  }

  /** Params only where the scheme uses them, and then the path has no `;`
      after its last `/`. */
  ghost predicate ParamsOk(c: UrlParts)
  {
    && (c.params != "" ==> c.scheme in UsesParams)
    && (c.scheme in UsesParams ==> NoParamsSeparator(c.path))
  }

  /** After a network location the path is absolute or absent. */
  ghost predicate NetlocPathOk(c: UrlParts)
  {
    c.netloc != "" ==> (c.path != "" && c.path[0] == '/') || (c.path == "" && c.params == "")
  }

  /** Without a scheme, nothing written reads as one, and the text does not
      start with what `urlsplit` strips. */
  ghost predicate NoSchemeOk(c: UrlParts)
  {
    && (c.scheme == "" ==> !HasScheme(Hierarchy("", c.netloc, JoinParams(c.path, c.params))))
    && (c.scheme == "" && c.netloc == "" && c.path != "" ==> !IsC0OrSpace(c.path[0]))
  }

  /** A prefix of a text without a scheme has no scheme either. */
  lemma NoSchemePrefix(t: string, u: string)
    requires t <= u && !HasScheme(u)
    ensures !HasScheme(t)
  {
    IndexOfConcat(t, u[|t|..], ':');
    assert u == t + u[|t|..];
  }

  /** Text that goes on with a character that is neither a scheme character
      nor `:` cannot complete a scheme. */
  lemma NoSchemeExtend(a: string, b: string)
    requires !HasScheme(a)
    requires b == [] || (!IsSchemeChar(b[0]) && b[0] != ':')
    ensures !HasScheme(a + b)
  {
    IndexOfConcat(a, b, ':');
    var i := IndexOf(a + b, ':');
    if b == [] {
      assert a + b == a;
    } else if ':' in a {
      assert forall k :: 0 <= k < i ==> (a + b)[k] == a[k];
      assert a != [] ==> (a + b)[0] == a[0];
    } else {
      assert (a + b)[|a|] == b[0];
      assert |a| < i;
    }
  }

  lemma ParseAfterSchemeWellFormed(scheme: string, afterScheme: string)
    requires SchemeOk(scheme) && NoUnsafe(afterScheme)
    requires scheme == "" ==> !HasScheme(afterScheme) && (afterScheme == [] || !IsC0OrSpace(afterScheme[0]))
    requires ParseAfterScheme(scheme, afterScheme).Parsed?
    ensures WellFormed(ParseAfterScheme(scheme, afterScheme).parts)
  {
    var (netloc, rest) := SplitNetloc(afterScheme);
    var c := SplitRest(scheme, netloc, rest);
    assert ParseAfterScheme(scheme, afterScheme) == Parsed(c);
    SplitRestChars(scheme, netloc, rest, c);
    SplitRestLayout(scheme, netloc, rest, c);
    assert Safe(c);
    assert Delimited(c);
    assert ParamsOk(c);
    var layout := rest == [] || rest[0] in NetlocDelims;
    assert c.netloc != "" ==> layout;
    LayoutNetlocPath(c, rest);
    if scheme == "" {
      assert "//" <= afterScheme ==> layout;
      assert !("//" <= afterScheme) ==> rest == afterScheme && c.netloc == [];
      LayoutNoScheme(afterScheme, rest, c);
    }
  }

  /** After a network location comes a delimiter, so the path is absolute
      or empty. */
  lemma LayoutNetlocPath(c: UrlParts, rest: string)
    requires c.netloc != "" ==> rest == [] || rest[0] in NetlocDelims
    requires rest != [] && rest[0] == '/' ==> c.path != [] && c.path[0] == '/'
    requires rest == [] || rest[0] == '?' || rest[0] == '#' ==> c.path == [] && c.params == []
    ensures NetlocPathOk(c)
  {
  }

  lemma LayoutNoScheme(clean: string, rest: string, c: UrlParts)
    requires !HasScheme(clean) && (clean == [] || !IsC0OrSpace(clean[0]))
    requires c.scheme == ""
    requires "//" <= clean ==> rest == [] || rest[0] in NetlocDelims
    requires !("//" <= clean) ==> rest == clean && c.netloc == []
    requires JoinParams(c.path, c.params) <= rest
    requires rest != [] && rest[0] == '/' ==> c.path != [] && c.path[0] == '/'
    requires rest == [] || rest[0] == '?' || rest[0] == '#' ==> c.path == [] && c.params == []
    ensures NoSchemeOk(c)
  {
    ParseNoScheme(clean, c);
  }

  /** Without a scheme, `urlunsplit` writes nothing that reads as one. */
  lemma ParseNoScheme(clean: string, c: UrlParts)
    requires !HasScheme(clean) && (clean == [] || !IsC0OrSpace(clean[0]))
    requires c.scheme == ""
    requires "//" <= clean ==> (c.path == [] || c.path[0] == '/') && (c.path == [] ==> c.params == [])
    requires !("//" <= clean) ==> c.netloc == [] && JoinParams(c.path, c.params) <= clean
    ensures NoSchemeOk(c)
  {
    var joined := JoinParams(c.path, c.params);
    if "//" <= clean {
      assert joined == [] || joined[0] == '/';
      NoSchemeSlash(c.netloc, joined);
    } else {
      assert c.path != [] ==> joined[0] == c.path[0];
      assert !("//" <= joined) by {
        if "//" <= joined { PrefixTrans("//", joined, clean); }
      }
      assert Hierarchy("", c.netloc, joined) == joined;
      NoSchemePrefix(joined, clean);
    }
  }

  /** What `urlunsplit` writes for an empty or absolute path without a
      scheme does not read as a scheme. */
  lemma NoSchemeSlash(netloc: string, joined: string)
    requires joined == [] || joined[0] == '/'
    ensures !HasScheme(Hierarchy("", netloc, joined))
  {
    var h := Hierarchy("", netloc, joined);
    assert h == [] || h[0] == '/';
  }

  /** The text after the scheme that `urlunparse` writes. */
  function AfterScheme(c: UrlParts): string
  {
    Hierarchy(c.scheme, c.netloc, JoinParams(c.path, c.params)) + (QueryPart(c.query) + FragmentPart(c.fragment))
  }

  /** The text that `urlsplit` leaves after the network location. */
  function AfterNetloc(c: UrlParts): string
  {
    JoinParams(c.path, c.params) + (QueryPart(c.query) + FragmentPart(c.fragment))
  }

  lemma SchemeSafe(scheme: string)
    requires SchemeOk(scheme)
    ensures NoUnsafe(SchemePart(scheme))
    ensures scheme != "" ==> ':' !in scheme
  {
  }

  lemma UnparseSafe(c: UrlParts)
    ensures SchemeOk(c.scheme) && Safe(c) ==>
      NoUnsafe(UrlUnsplit(c.scheme, c.netloc, JoinParams(c.path, c.params), c.query, c.fragment))
  {
    if SchemeOk(c.scheme) && Safe(c) {
      SchemeSafe(c.scheme);
      var p := JoinParams(c.path, c.params);
      assert NoUnsafe(p);
      assert NoUnsafe(Hierarchy(c.scheme, c.netloc, p));
      assert NoUnsafe(QueryPart(c.query) + FragmentPart(c.fragment));
    }
  }

  /** The first character `urlunparse` writes is not one `urlsplit` strips. */
  lemma UnparseFirst(c: UrlParts)
    requires SchemeOk(c.scheme) && NoSchemeOk(c)
    ensures UrlUnparse(c) == SchemePart(c.scheme) + AfterScheme(c)
    ensures UrlUnparse(c) == [] || !IsC0OrSpace(UrlUnparse(c)[0])
  {
    var p := JoinParams(c.path, c.params);
    var h := Hierarchy(c.scheme, c.netloc, p);
    var tail := QueryPart(c.query) + FragmentPart(c.fragment);
    var u := UrlUnparse(c);
    assert u == SchemePart(c.scheme) + (h + tail);
    if c.scheme != "" {
      assert u[0] == c.scheme[0];
    } else if h != [] {
      assert u[0] == h[0];
      assert h[0] == '/' || h[0] == ';' || h[0] == c.path[0];
    } else if tail != [] {
      assert u[0] == tail[0];
    }
  }

  /** `urlsplit` finds the scheme that `urlunparse` wrote, and no other. */
  lemma UnparseScheme(c: UrlParts)
    requires SchemeOk(c.scheme) && NoSchemeOk(c)
    ensures SplitScheme(SchemePart(c.scheme) + AfterScheme(c)) == (c.scheme, AfterScheme(c))
  {
    if c.scheme != "" {
      UnparseSchemeGiven(c);
    } else {
      UnparseSchemeAbsent(c);
    }
  }

  lemma UnparseSchemeGiven(c: UrlParts)
    requires SchemeOk(c.scheme) && c.scheme != ""
    ensures SplitScheme(SchemePart(c.scheme) + AfterScheme(c)) == (c.scheme, AfterScheme(c))
  {
    SchemeSafe(c.scheme);
    assert SchemePart(c.scheme) + AfterScheme(c) == c.scheme + ":" + AfterScheme(c);
    SchemeReadBack(c.scheme, AfterScheme(c));
  }

  lemma UnparseSchemeAbsent(c: UrlParts)
    requires NoSchemeOk(c) && c.scheme == ""
    ensures SplitScheme(SchemePart(c.scheme) + AfterScheme(c)) == (c.scheme, AfterScheme(c))
  {
    var h := Hierarchy(c.scheme, c.netloc, JoinParams(c.path, c.params));
    var tail := QueryPart(c.query) + FragmentPart(c.fragment);
    assert tail == [] || tail[0] == '?' || tail[0] == '#';
    NoSchemeReadBack(h, tail);
    assert SchemePart(c.scheme) + AfterScheme(c) == h + tail;
  }

  /** Text without a scheme, followed by a query or a fragment, has none. */
  lemma NoSchemeReadBack(h: string, tail: string)
    requires !HasScheme(h)
    requires tail == [] || tail[0] == '?' || tail[0] == '#'
    ensures SplitScheme(h + tail) == ("", h + tail)
  {
    NoSchemeExtend(h, tail);
  }

  /** A non-empty scheme followed by `:` is read back as it was written. */
  lemma SchemeReadBack(scheme: string, after: string)
    requires SchemeOk(scheme) && scheme != "" && ':' !in scheme
    ensures SplitScheme(scheme + ":" + after) == (scheme, after)
  {
    var u := scheme + ":" + after;
    SchemeFound(scheme, after);
    assert u[..|scheme|] == scheme;
    assert AsciiLowerString(scheme) == scheme;
    assert u[|scheme| + 1..] == after;
  }

  lemma SchemeFound(scheme: string, after: string)
    requires SchemeOk(scheme) && scheme != "" && ':' !in scheme
    ensures IndexOf(scheme + ":" + after, ':') == |scheme|
    ensures HasScheme(scheme + ":" + after)
  {
    var u := scheme + ":" + after;
    assert u == scheme + (":" + after);
    IndexOfConcat(scheme, ":" + after, ':');
    assert forall k :: 0 <= k < |scheme| ==> u[k] == scheme[k];
  }

  /** `urlsplit` finds the network location that `urlunparse` wrote. */
  lemma UnparseNetloc(c: UrlParts)
    requires Delimited(c) && NetlocPathOk(c)
    ensures SplitNetloc(AfterScheme(c)) == (c.netloc, AfterNetloc(c))
  {
    var p := JoinParams(c.path, c.params);
    var tail := QueryPart(c.query) + FragmentPart(c.fragment);
    assert tail == [] || tail[0] == '?' || tail[0] == '#';
    assert c.netloc != "" ==> p == [] || p[0] == '/';
    HierarchySplit(c.scheme, c.netloc, p, tail);
  }

  /** What `urlunsplit` writes before the query is split back at the end
      of its network location. */
  lemma HierarchySplit(scheme: string, netloc: string, p: string, tail: string)
    requires '/' !in netloc && '?' !in netloc && '#' !in netloc
    requires netloc != "" ==> p == [] || p[0] == '/'
    requires tail == [] || tail[0] == '?' || tail[0] == '#'
    ensures SplitNetloc(Hierarchy(scheme, netloc, p) + tail) == (netloc, p + tail)
  {
    var h := Hierarchy(scheme, netloc, p);
    var rest := p + tail;
    if netloc != "" || h != p {
      assert rest == [] || rest[0] in NetlocDelims by {
        if p != [] { assert rest[0] == p[0]; }
      }
      assert h + tail == "//" + netloc + rest;
      SplitNetlocJoin(netloc, rest);
    } else {
      NoDoubleSlash(p, tail);
    }
  }

  /** Text that does not start with `//`, followed by a query or a fragment,
      does not either. */
  lemma NoDoubleSlash(p: string, tail: string)
    requires !("//" <= p)
    requires tail == [] || tail[0] == '?' || tail[0] == '#'
    ensures !("//" <= p + tail)
  {
    var rest := p + tail;
    if |p| >= 2 {
      assert rest[..2] == p[..2];
    } else if |p| == 1 {
      assert tail == [] || rest[1] == tail[0];
    } else {
      assert rest == tail;
    }
  }

  lemma SplitNetlocJoin(netloc: string, rest: string)
    requires '/' !in netloc && '?' !in netloc && '#' !in netloc
    requires rest == [] || rest[0] in NetlocDelims
    ensures SplitNetloc("//" + netloc + rest) == (netloc, rest)
  {
    var url := "//" + netloc + rest;
    assert url[2..] == netloc + rest;
    IndexOfAnyConcat(netloc, rest, NetlocDelims);
    assert url[2..][..|netloc|] == netloc;
    assert url[2..][|netloc|..] == rest;
  }

  /** `s.split(c, 1)` undoes writing `x`, then `c` and `y` when `y` is not empty. */
  lemma SplitFirstJoin(x: string, c: char, y: string)
    requires c !in x
    ensures SplitFirst(x + (if y != "" then [c] + y else ""), c) == (x, y)
  {
    if y != "" {
      var s := x + ([c] + y);
      IndexOfConcat(x, [c] + y, c);
      assert s[..|x|] == x;
      assert s[|x| + 1..] == y;
    } else {
      assert x + "" == x;
    }
  }

  /** `_splitparams` finds the params that `urlunparse` wrote. */
  lemma PathParamsJoin(c: UrlParts)
    requires Delimited(c) && ParamsOk(c)
    ensures PathParams(c.scheme, JoinParams(c.path, c.params)) == (c.path, c.params)
  {
    var p := JoinParams(c.path, c.params);
    if c.scheme in UsesParams && ';' in p {
      if c.params != "" {
        SplitParamsJoin(c.path, c.params);
      } else {
        var k :| 0 <= k < |p| && p[k] == ';';
        assert LastIndexOf(p, '/') >= k;
      }
    }
  }

  /** `urlsplit` and `_splitparams` find the path, params, query and fragment
      that `urlunparse` wrote. */
  lemma UnparseRest(c: UrlParts)
    requires Delimited(c) && ParamsOk(c)
    ensures SplitRest(c.scheme, c.netloc, AfterNetloc(c)) == c
  {
    var p := JoinParams(c.path, c.params);
    var q := QueryPart(c.query);
    assert AfterNetloc(c) == (p + q) + FragmentPart(c.fragment);
    assert '#' !in p + q;
    SplitFirstJoin(p + q, '#', c.fragment);
    SplitFirstJoin(p, '?', c.query);
    PathParamsJoin(c);
  }

  /** `urlparse` inverts `urlunparse` on well-formed parts. */
  lemma UnparseParse(c: UrlParts)
    requires WellFormed(c)
    ensures UrlParse(UrlUnparse(c)) == Parsed(c)
  {
    UnparseFirst(c);
    SanitizeKeeps(UrlUnparse(c));
    UnparseScheme(c);
    UnparseNetloc(c);
    UnparseRest(c);
  }

  lemma SplitParamsJoin(path: string, params: string)
    requires params != "" && '/' !in params && NoParamsSeparator(path)
    ensures SplitParams(path + ";" + params) == (path, params)
  {
    var url := path + ";" + params;
    assert url == path + (";" + params);
    LastIndexOfConcat(path, ";" + params, '/');
    assert url[|path|] == ';';
    assert ParamsCut(url) == |path|;
    assert url[..|path|] == path && url[|path| + 1..] == params;
  }

  lemma {:induction false} LastIndexOfConcat(a: string, b: string, c: char)
    requires c !in b
    ensures LastIndexOf(a + b, c) == LastIndexOf(a, c)
  {
    if b == [] {
      assert a + b == a;
    } else {
      assert (a + b)[..|a + b| - 1] == a + b[..|b| - 1];
      LastIndexOfConcat(a, b[..|b| - 1], c);
    }
  }

  /** Replacing the query of well-formed parts by a query without `#` keeps
      them well formed. */
  lemma WithQuery(c: UrlParts, query: string)
    requires WellFormed(c) && '#' !in query && NoUnsafe(query)
    ensures WellFormed(c.(query := query))
  {
  }

  // ---------------------------------------------------------------------
  // Query strings

  /** `parse_qs`'s result: keys in first-seen order, each with its values. */
  type QueryDict = seq<(string, seq<string>)>

  /** `parse_qsl`'s handling of one `&`-separated field: empty fields, fields
      without `=` and fields with an empty value are dropped. */
  function FieldPair(field: string): Option<(string, string)>
  {
    var i := IndexOf(field, '=');
    if field == "" || i == |field| || i + 1 == |field| then None
    else Some((field[..i], field[i + 1..]))
  }

  function FieldPairs(fields: seq<string>): seq<(string, string)>
  {
    if fields == [] then []
    else
      (match FieldPair(fields[0]) case Some(p) => [p] case None => []) + FieldPairs(fields[1..])
  }

  /** `parse_qsl(qs)` with its default arguments. */
  function ParseQsl(qs: string): seq<(string, string)>
  {
    FieldPairs(SplitOn(qs, '&'))
  }

  /** The position of key `k` in `d`, or `|d|`. */
  function KeyIndex(d: QueryDict, k: string): (i: nat)
    ensures i <= |d|
    ensures i < |d| ==> d[i].0 == k
    ensures forall j :: 0 <= j < i ==> d[j].0 != k
  {
    if d == [] then 0 else if d[0].0 == k then 0 else 1 + KeyIndex(d[1..], k)
  }

  /** `d.get(k)`. */
  function Lookup(d: QueryDict, k: string): Option<seq<string>>
  {
    var i := KeyIndex(d, k);
    if i < |d| then Some(d[i].1) else None
  }

  /** One step of `parse_qs`: append the value to its key's list, or add the key. */
  function AddPair(d: QueryDict, p: (string, string)): QueryDict
  {
    var i := KeyIndex(d, p.0);
    if i < |d| then d[i := (p.0, d[i].1 + [p.1])] else d + [(p.0, [p.1])]
  }

  function GroupPairs(d: QueryDict, pairs: seq<(string, string)>): QueryDict
    decreases |pairs|
  {
    if pairs == [] then d else GroupPairs(AddPair(d, pairs[0]), pairs[1..])
  }

  /** `parse_qs(qs)` with its default arguments: a query without `#` gives
      distinct keys, each with at least one non-blank value. */
  function ParseQs(qs: string): (r: QueryDict)
    ensures '#' !in qs && NoUnsafe(qs) ==> DictOk(r)
  {
    ParseQsOk(qs);
    GroupPairs([], ParseQsl(qs))
  }

  /** `d[k] = vs` on a Python dict: an existing key keeps its position. */
  function Assign(d: QueryDict, k: string, vs: seq<string>): QueryDict
  {
    var i := KeyIndex(d, k);
    if i < |d| then d[i := (k, vs)] else d + [(k, vs)]
  }

  /** The pairs `urlencode(d, doseq=True)` writes, in order. */
  function Spread(k: string, vs: seq<string>): seq<(string, string)>
  {
    seq(|vs|, i requires 0 <= i < |vs| => (k, vs[i]))
  }

  function Flatten(d: QueryDict): seq<(string, string)>
  {
    if d == [] then [] else Spread(d[0].0, d[0].1) + Flatten(d[1..])
  }

  function EncodeFields(pairs: seq<(string, string)>): seq<string>
  {
    seq(|pairs|, i requires 0 <= i < |pairs| => pairs[i].0 + "=" + pairs[i].1)
  }

  /** `urlencode(d, doseq=True)`, without percent-encoding: a well-shaped
      dictionary gives a query without `#`, tab, carriage return or line
      feed. */
  function Urlencode(d: QueryDict): (r: string)
    ensures DictOk(d) ==> '#' !in r && NoUnsafe(r)
  {
    var fields := EncodeFields(Flatten(d));
    UrlencodeChars(d, fields);
    Join(fields, '&')
  }

  /** The number of pairs with key `k`. */
  function CountKey(pairs: seq<(string, string)>, k: string): nat
  {
    if pairs == [] then 0 else (if pairs[0].0 == k then 1 else 0) + CountKey(pairs[1..], k)
  }

  ghost predicate KeyOk(k: string)
  {
    '&' !in k && '=' !in k && '#' !in k && NoUnsafe(k)
  }

  ghost predicate ValueOk(v: string)
  {
    v != "" && '&' !in v && '#' !in v && NoUnsafe(v)
  }

  /** The shape of every `parse_qs` result read from a query without `#`. */
  ghost predicate DictOk(d: QueryDict)
  {
    && (forall i, j :: 0 <= i < j < |d| ==> d[i].0 != d[j].0)
    && (forall i :: 0 <= i < |d| ==> KeyOk(d[i].0) && |d[i].1| > 0)
    && (forall i, n :: 0 <= i < |d| && 0 <= n < |d[i].1| ==> ValueOk(d[i].1[n]))
  }

  lemma {:induction false} FieldPairsOk(fields: seq<string>, qs: string)
    requires forall k :: 0 <= k < |fields| ==> '&' !in fields[k] && '#' !in fields[k] && NoUnsafe(fields[k])
    ensures forall n :: 0 <= n < |FieldPairs(fields)| ==>
      KeyOk(FieldPairs(fields)[n].0) && ValueOk(FieldPairs(fields)[n].1)
  {
    if fields != [] {
      FieldPairsOk(fields[1..], qs);
    }
  }

  lemma {:induction false} GroupPairsOk(d: QueryDict, pairs: seq<(string, string)>)
    requires DictOk(d)
    requires forall n :: 0 <= n < |pairs| ==> KeyOk(pairs[n].0) && ValueOk(pairs[n].1)
    ensures DictOk(GroupPairs(d, pairs))
    decreases |pairs|
  {
    if pairs != [] {
      var d' := AddPair(d, pairs[0]);
      var i := KeyIndex(d, pairs[0].0);
      if i < |d| {
        assert d'[i].1 == d[i].1 + [pairs[0].1];
      }
      assert DictOk(d');
      GroupPairsOk(d', pairs[1..]);
    }
  }

  lemma ParseQsOk(qs: string)
    ensures '#' !in qs && NoUnsafe(qs) ==> DictOk(GroupPairs([], ParseQsl(qs)))
  {
    if '#' !in qs && NoUnsafe(qs) {
      var fields := SplitOn(qs, '&');
      SplitOnChars(qs, '&');
      FieldPairsOk(fields, qs);
      GroupPairsOk([], ParseQsl(qs));
    }
  }

  lemma {:induction false} SplitOnChars(s: string, sep: char)
    requires '#' !in s && NoUnsafe(s)
    ensures forall k :: 0 <= k < |SplitOn(s, sep)| ==> '#' !in SplitOn(s, sep)[k] && NoUnsafe(SplitOn(s, sep)[k])
    decreases |s|
  {
    var i := IndexOf(s, sep);
    if i < |s| {
      SplitOnChars(s[i + 1..], sep);
      var parts := SplitOn(s, sep);
      var rest := SplitOn(s[i + 1..], sep);
      assert parts == [s[..i]] + rest;
      assert '#' !in s[..i] && NoUnsafe(s[..i]);
      forall k | 0 <= k < |parts| ensures '#' !in parts[k] && NoUnsafe(parts[k]) {
        if k > 0 {
          assert parts[k] == rest[k - 1];
        }
      }
    }
  }

  lemma AssignOk(d: QueryDict, k: string, vs: seq<string>)
    requires DictOk(d) && KeyOk(k) && |vs| > 0
    requires forall n :: 0 <= n < |vs| ==> ValueOk(vs[n])
    ensures DictOk(Assign(d, k, vs))
  {
  }

  lemma AssignLookup(d: QueryDict, k: string, vs: seq<string>, other: string)
    ensures Lookup(Assign(d, k, vs), k) == Some(vs)
    ensures other != k ==> Lookup(Assign(d, k, vs), other) == Lookup(d, other)
  {
    var d' := Assign(d, k, vs);
    var i := KeyIndex(d, k);
    if i < |d| {
      assert forall n :: 0 <= n < |d| ==> d'[n].0 == d[n].0;
      KeyIndexSameKeys(d, d', k);
      KeyIndexSameKeys(d, d', other);
    } else {
      assert d' == d + [(k, vs)];
      KeyIndexAppend(d, (k, vs), k);
      KeyIndexAppend(d, (k, vs), other);
    }
  }

  lemma {:induction false} KeyIndexSameKeys(d: QueryDict, e: QueryDict, k: string)
    requires |d| == |e| && forall n :: 0 <= n < |d| ==> d[n].0 == e[n].0
    ensures KeyIndex(d, k) == KeyIndex(e, k)
  {
    if d != [] {
      KeyIndexSameKeys(d[1..], e[1..], k);
    }
  }

  lemma {:induction false} KeyIndexAppend(d: QueryDict, p: (string, seq<string>), k: string)
    ensures KeyIndex(d + [p], k) == if KeyIndex(d, k) < |d| then KeyIndex(d, k) else if p.0 == k then |d| else |d| + 1
  {
    if d != [] && d[0].0 != k {
      assert (d + [p])[1..] == d[1..] + [p];
      KeyIndexAppend(d[1..], p, k);
    }
  }

  lemma {:induction false} GroupPairsAppend(d: QueryDict, xs: seq<(string, string)>, ys: seq<(string, string)>)
    ensures GroupPairs(d, xs + ys) == GroupPairs(GroupPairs(d, xs), ys)
    decreases |xs|
  {
    if xs == [] {
      assert xs + ys == ys;
    } else {
      assert (xs + ys)[1..] == xs[1..] + ys;
      GroupPairsAppend(AddPair(d, xs[0]), xs[1..], ys);
    }
  }

  /** Grouping the pairs of one key that `d` already holds at position `i`
      appends their values there. */
  lemma {:induction false} GroupSpreadExisting(d: QueryDict, i: nat, k: string, vs: seq<string>)
    requires i < |d| && KeyIndex(d, k) == i
    ensures GroupPairs(d, Spread(k, vs)) == d[i := (k, d[i].1 + vs)]
    decreases |vs|
  {
    if vs == [] {
      assert d[i].1 + vs == d[i].1;
      assert d[i := (k, d[i].1)] == d;
    } else {
      var d' := AddExisting(d, i, k, vs[0]);
      GroupSpreadExisting(d', i, k, vs[1..]);
      GroupSpreadCons(d, d', i, k, vs);
    }
  }

  lemma GroupSpreadCons(d: QueryDict, d': QueryDict, i: nat, k: string, vs: seq<string>)
    requires vs != [] && i < |d|
    requires d' == AddPair(d, (k, vs[0])) && d' == d[i := (k, d[i].1 + [vs[0]])]
    requires GroupPairs(d', Spread(k, vs[1..])) == d'[i := (k, d'[i].1 + vs[1..])]
    ensures GroupPairs(d, Spread(k, vs)) == d[i := (k, d[i].1 + vs)]
  {
    GroupSpreadUnfold(d, k, vs);
    UpdateTwice(d, i, k, d[i].1, vs);
  }

  lemma GroupSpreadUnfold(d: QueryDict, k: string, vs: seq<string>)
    requires vs != []
    ensures GroupPairs(d, Spread(k, vs)) == GroupPairs(AddPair(d, (k, vs[0])), Spread(k, vs[1..]))
  {
    var sp := Spread(k, vs);
    assert sp[0] == (k, vs[0]) && sp[1..] == Spread(k, vs[1..]);
  }

  lemma UpdateTwice(d: QueryDict, i: nat, k: string, a: seq<string>, vs: seq<string>)
    requires vs != [] && i < |d|
    ensures var d' := d[i := (k, a + [vs[0]])];
      d'[i := (k, d'[i].1 + vs[1..])] == d[i := (k, a + vs)]
  {
    assert (a + [vs[0]]) + vs[1..] == a + vs by {
      assert vs == [vs[0]] + vs[1..];
    }
  }

  /** Adding a value to a key that `d` holds at position `i` extends that
      key's list and keeps every key where it was. */
  lemma AddExisting(d: QueryDict, i: nat, k: string, v: string) returns (d': QueryDict)
    requires i < |d| && KeyIndex(d, k) == i
    ensures d' == AddPair(d, (k, v)) && d' == d[i := (k, d[i].1 + [v])]
    ensures |d'| == |d| && KeyIndex(d', k) == i
  {
    d' := d[i := (k, d[i].1 + [v])];
    assert forall n :: 0 <= n < |d| ==> d'[n].0 == d[n].0;
    KeyIndexSameKeys(d, d', k);
  }

  /** No key occurs twice. */
  ghost predicate KeysDistinct(d: QueryDict)
  {
    forall i, j :: 0 <= i < j < |d| ==> d[i].0 != d[j].0
  }

  /** Every key has at least one value. */
  ghost predicate ValuesPresent(d: QueryDict)
  {
    forall i :: 0 <= i < |d| ==> |d[i].1| > 0
  }

  lemma {:induction false} GroupFlatten(acc: QueryDict, d: QueryDict)
    requires KeysDistinct(acc + d) && ValuesPresent(d)
    ensures GroupPairs(acc, Flatten(d)) == acc + d
    decreases |d|
  {
    if d == [] {
      assert acc + d == acc;
    } else {
      FlattenStep(acc, d);
      GroupFlatten(acc + [d[0]], d[1..]);
      assert Flatten(d) == Spread(d[0].0, d[0].1) + Flatten(d[1..]);
      GroupFlattenFirst(acc, d[0].0, d[0].1, Flatten(d[1..]), d[1..]);
    }
  }

  /** Grouping one new key's pairs, then the rest, appends the key and then
      what the rest groups into. */
  lemma GroupFlattenFirst(acc: QueryDict, k: string, vs: seq<string>, f: seq<(string, string)>, rest: QueryDict)
    requires KeyIndex(acc, k) == |acc| && |vs| > 0
    requires GroupPairs(acc + [(k, vs)], f) == acc + [(k, vs)] + rest
    ensures GroupPairs(acc, Spread(k, vs) + f) == acc + [(k, vs)] + rest
  {
    GroupPairsAppend(acc, Spread(k, vs), f);
    GroupSpreadNew(acc, k, vs);
  }

  /** Moving the first key of `d` to `acc` keeps the keys apart. */
  lemma FlattenStep(acc: QueryDict, d: QueryDict)
    requires d != [] && KeysDistinct(acc + d) && ValuesPresent(d)
    ensures KeyIndex(acc, d[0].0) == |acc| && |d[0].1| > 0
    ensures acc + [d[0]] + d[1..] == acc + d
    ensures KeysDistinct(acc + [d[0]] + d[1..]) && ValuesPresent(d[1..])
  {
    HeadSplit(acc, d);
    FlattenKeyFresh(acc, d);
    forall j | 0 <= j < |d[1..]|
      ensures |d[1..][j].1| > 0
    {
      assert d[1..][j] == d[j + 1];
    }
  }

  lemma HeadSplit(acc: QueryDict, d: QueryDict)
    requires d != []
    ensures acc + [d[0]] + d[1..] == acc + d
  {
    assert [d[0]] + d[1..] == d;
  }

  /** The first key of `d` is not among the keys of `acc`. */
  lemma FlattenKeyFresh(acc: QueryDict, d: QueryDict)
    requires d != [] && KeysDistinct(acc + d)
    ensures KeyIndex(acc, d[0].0) == |acc|
  {
    forall i | 0 <= i < |acc|
      ensures acc[i].0 != d[0].0
    {
      assert (acc + d)[i] == acc[i] && (acc + d)[|acc|] == d[0];
    }
  }

  /** Grouping the pairs of a key that `acc` does not hold appends the key
      with all its values. */
  lemma GroupSpreadNew(acc: QueryDict, k: string, vs: seq<string>)
    requires KeyIndex(acc, k) == |acc| && |vs| > 0
    ensures GroupPairs(acc, Spread(k, vs)) == acc + [(k, vs)]
  {
    var acc1 := AddPair(acc, (k, vs[0]));
    KeyIndexAppend(acc, (k, [vs[0]]), k);
    assert acc1 == acc + [(k, [vs[0]])];
    assert Spread(k, vs)[1..] == Spread(k, vs[1..]);
    GroupSpreadExisting(acc1, |acc|, k, vs[1..]);
    assert [vs[0]] + vs[1..] == vs;
  }

  lemma {:induction false} FieldPairsEncoded(pairs: seq<(string, string)>)
    requires forall n :: 0 <= n < |pairs| ==> KeyOk(pairs[n].0) && ValueOk(pairs[n].1)
    ensures FieldPairs(EncodeFields(pairs)) == pairs
  {
    if pairs != [] {
      var fields := EncodeFields(pairs);
      FieldPairEncoded(pairs[0].0, pairs[0].1);
      assert fields[1..] == EncodeFields(pairs[1..]);
      FieldPairsEncoded(pairs[1..]);
      assert FieldPairs(fields) == [pairs[0]] + pairs[1..];
    }
  }

  /** One field that `urlencode` writes is read back as its pair. */
  lemma FieldPairEncoded(k: string, v: string)
    requires '=' !in k && v != ""
    ensures FieldPair(k + "=" + v) == Some((k, v))
  {
    var f := k + "=" + v;
    assert IndexOf(f, '=') == |k| by {
      assert f == k + ("=" + v);
      IndexOfConcat(k, "=" + v, '=');
    }
    assert f[..|k|] == k && f[|k| + 1..] == v;
  }

  lemma {:induction false} FlattenOk(d: QueryDict)
    requires DictOk(d)
    ensures forall n :: 0 <= n < |Flatten(d)| ==> KeyOk(Flatten(d)[n].0) && ValueOk(Flatten(d)[n].1)
  {
    if d != [] {
      assert DictOk(d[1..]);
      FlattenOk(d[1..]);
      var s := Spread(d[0].0, d[0].1);
      forall n | 0 <= n < |Flatten(d)|
        ensures KeyOk(Flatten(d)[n].0) && ValueOk(Flatten(d)[n].1)
      {
        if n < |s| {
          assert Flatten(d)[n] == (d[0].0, d[0].1[n]);
        } else {
          assert Flatten(d)[n] == Flatten(d[1..])[n - |s|];
        }
      }
    }
  }

  /** `parse_qs` reads back exactly what `urlencode` wrote. */
  lemma QueryRoundTrip(d: QueryDict)
    requires DictOk(d)
    ensures ParseQs(Urlencode(d)) == d
  {
    var pairs := Flatten(d);
    FlattenOk(d);
    ParseQslEncoded(pairs);
    assert [] + d == d;
    GroupFlatten([], d);
  }

  /** `parse_qsl` reads back the pairs that `urlencode` joined. */
  lemma ParseQslEncoded(pairs: seq<(string, string)>)
    requires forall n :: 0 <= n < |pairs| ==> KeyOk(pairs[n].0) && ValueOk(pairs[n].1)
    ensures ParseQsl(Join(EncodeFields(pairs), '&')) == pairs
  {
    var fields := EncodeFields(pairs);
    if fields == [] {
      assert SplitOn("", '&') == [""];
      assert FieldPair("") == None;
    } else {
      assert forall k :: 0 <= k < |fields| ==> '&' !in fields[k];
      SplitJoin(fields, '&');
    }
    FieldPairsEncoded(pairs);
  }

  lemma UrlencodeChars(d: QueryDict, fields: seq<string>)
    requires fields == EncodeFields(Flatten(d))
    ensures DictOk(d) ==> '#' !in Join(fields, '&') && NoUnsafe(Join(fields, '&'))
  {
    if DictOk(d) {
      FlattenOk(d);
      JoinChars(fields, '&');
    }
  }

  lemma {:induction false} JoinChars(parts: seq<string>, sep: char)
    ensures forall c :: c in Join(parts, sep) ==> c == sep || exists k :: 0 <= k < |parts| && c in parts[k]
  {
    if |parts| > 1 {
      JoinChars(parts[1..], sep);
    }
  }

  /** The number of pairs `urlencode` writes for a key of a dictionary with
      unique keys is the length of its value list. */
  lemma {:induction false} CountKeyFlatten(d: QueryDict, k: string)
    requires forall i, j :: 0 <= i < j < |d| ==> d[i].0 != d[j].0
    ensures CountKey(Flatten(d), k) == match Lookup(d, k) case Some(vs) => |vs| case None => 0
  {
    if d != [] {
      CountKeyAppend(Spread(d[0].0, d[0].1), Flatten(d[1..]), k);
      CountKeySpread(d[0].0, d[0].1, k);
      CountKeyFlatten(d[1..], k);
      if d[0].0 == k {
        assert forall j :: 0 <= j < |d[1..]| ==> d[1..][j].0 != k;
      }
    }
  }

  lemma {:induction false} CountKeyAppend(xs: seq<(string, string)>, ys: seq<(string, string)>, k: string)
    ensures CountKey(xs + ys, k) == CountKey(xs, k) + CountKey(ys, k)
  {
    if xs == [] {
      assert xs + ys == ys;
    } else {
      assert (xs + ys)[1..] == xs[1..] + ys;
      CountKeyAppend(xs[1..], ys, k);
    }
  }

  lemma {:induction false} CountKeySpread(key: string, vs: seq<string>, k: string)
    ensures CountKey(Spread(key, vs), k) == if key == k then |vs| else 0
    decreases |vs|
  {
    if vs != [] {
      assert Spread(key, vs)[1..] == Spread(key, vs[1..]);
      CountKeySpread(key, vs[1..], k);
    }
  }
}
