/**
 * Small helpers about the current request: the classes added to `<body>`, the
 * query string of the request URI, the path template for paginated URLs when
 * permalinks are on, and the Grunion contact-form redirect.
 *
 * `user_trailingslashit` and `remove_query_arg` are function parameters; the
 * pagination base (`$wp_rewrite->pagination_base`) is a parameter made of
 * class characters, so that it reads the same inside a regular expression.
 */
module Request {
  import opened Strings
  import opened Php
  import opened Settings

  // ---------------------------------------------------------------------------
  // body_class

  /** The class logic of `body_class` for a given enable option and scroll type. */
  function BodyClassFor(enabledOption: Value, scrollType: Value): (r: string)
    ensures r == "" || r == "infinite-scroll" || r == "infinite-scroll neverending"
    ensures r == "" <==> enabledOption == Str("") && !LooseEqualsWord(scrollType, "click")
    ensures r == "infinite-scroll neverending" <==> r != "" && LooseEqualsWord(scrollType, "scroll")
  {
    var disabled := enabledOption == Str("");
    if !disabled || LooseEqualsWord(scrollType, "click") then
      if LooseEqualsWord(scrollType, "scroll") then "infinite-scroll neverending" else "infinite-scroll"
    else ""
  }

  /**
   * `body_class` over the normalised settings: a disabled site is forced to
   * click, so the infinite-scroll class is always there, and 'neverending' is
   * added exactly for continuous scrolling.
   */
  function BodyClass(site: Site): (r: string)
    ensures r == "infinite-scroll" || r == "infinite-scroll neverending"
    ensures r == "infinite-scroll neverending" <==> GetSettings(site).scrollType == Str("scroll")
  {
    BodyClassFor(site.enabledOption, GetSettings(site).scrollType)
  }

  // ---------------------------------------------------------------------------
  // get_request_parameters

  /** The position of the first '?' in `s`, if any. */
  function FirstQuestionMark(s: string): (r: Option<nat>)
    ensures r.None? <==> '?' !in s
    ensures r.Some? ==> r.value < |s| && s[r.value] == '?' && '?' !in s[..r.value]
  {
    if s == [] then None
    else if s[0] == '?' then Some(0)
    else
      var rest := FirstQuestionMark(s[1..]);
      assert s == [s[0]] + s[1..];
      if rest.Some? then
        assert s[..rest.value + 1] == [s[0]] + s[1..][..rest.value];
        Some(rest.value + 1)
      else None
  }

  /**
   * The subject of `.*$` without the `s` flag: no line break, except one at the
   * very end, which `$` allows before it.
   */
  predicate LineEndsAtEnd(s: string) {
    forall k :: 0 <= k < |s| && s[k] == '\n' ==> k == |s| - 1
  }

  /**
   * `get_request_parameters`: `preg_replace('/^[^?]*(\?.*$)/', '$1', uri)` with
   * a count of one, else ''. It keeps the URI from its first '?' on, provided
   * the part after it has no line break before its last character.
   */
  function RequestParameters(uri: string): (r: string)
    ensures r == "" || (r[0] == '?' && EndsWith(uri, r) && '?' !in uri[..|uri| - |r|])
    ensures '?' in uri && (forall k :: 0 <= k < |uri| ==> uri[k] != '\n') ==> r != ""
    ensures '?' !in uri ==> r == ""
  {
    match FirstQuestionMark(uri)
    case None => ""
    case Some(i) =>
      if LineEndsAtEnd(uri[i + 1..]) then
        assert uri[..|uri| - |uri[i..]|] == uri[..i];
        uri[i..]
      else ""
  }

  /** A path without '?' followed by a one-line query string gives back '?' and the query string. */
  lemma RequestParametersOfPathAndQuery(path: string, query: string)
    requires '?' !in path
    requires forall k :: 0 <= k < |query| ==> query[k] != '\n'
    ensures RequestParameters(path + "?" + query) == "?" + query
  {
    var uri := path + "?" + query;
    assert uri[|path|] == '?';
    assert uri[..|path|] == path;
    var i := FirstQuestionMark(uri).value;
    assert i == |path|;
    assert uri[i + 1..] == query;
    assert uri[i..] == "?" + query;
  }

  /** A line break inside the query string defeats the pattern, so no parameters are reported. */
  lemma LineBreakInQueryGivesNothing()
    ensures RequestParameters("/?a\nb") == ""
  {
    var uri := "/?a\nb";
    assert uri[1] == '?' && uri[0] != '?';
    assert FirstQuestionMark(uri) == Some(1);
    assert uri[2..][1] == '\n';
  }

  // ---------------------------------------------------------------------------
  // get_request_path, permalink branch

  /** The number of decimal digits at the end of `s`. */
  function TrailingDigits(s: string): (n: nat)
    ensures n <= |s|
    ensures forall k :: |s| - n <= k < |s| ==> IsDigit(s[k])
    ensures n < |s| ==> !IsDigit(s[|s| - n - 1])
  {
    if s == [] || !IsDigit(s[|s| - 1]) then 0
    else TrailingDigits(s[..|s| - 1]) + 1
  }

  /** `s` ends with the pagination base (in any case), a slash and at least one digit: `base/\d+$` with `i`. */
  predicate EndsWithPageNumber(s: string, base: string) {
    var d := TrailingDigits(s);
    var head := s[..|s| - d];
    && d > 0
    && |head| >= |base| + 1
    && head[|head| - 1] == '/'
    && EqualsIgnoreCase(head[|head| - 1 - |base|..|head| - 1], base)
  }

  /** `preg_match('#base/\d+/?$#i', s)`, for a request that does not end in a line break. */
  predicate IsPaginated(s: string, base: string) {
    EndsWithPageNumber(s, base) || (EndsWith(s, "/") && EndsWithPageNumber(s[..|s| - 1], base))
  }

  /** A path with a leading slash added when it lacks one. */
  function Slash(path: string): (r: string)
    ensures StartsWith(r, "/")
    ensures StartsWith(path, "/") ==> r == path
    ensures !StartsWith(path, "/") ==> r == "/" + path
  {
    if StartsWith(path, "/") then path else "/" + path
  }

  /**
   * The path template before `user_trailingslashit`: a paginated request has
   * its page number replaced by '%d' (only when it does not end in a slash,
   * as the replacement pattern has no optional slash); any other request gets
   * the pagination base and '%d' appended; the result starts with a slash.
   */
  function PathTemplate(request: string, base: string): (r: string)
    requires |base| > 0 && AllCss(base)
    ensures StartsWith(r, "/")
    ensures !EndsWith(request, "/") ==> EndsWith(r, base + "/%d")
    ensures !IsPaginated(request, base) ==> r == Slash(request + "/" + base + "/%d")
    ensures EndsWithPageNumber(request, base) ==>
              r == Slash(request[..|request| - TrailingDigits(request) - 1 - |base|] + base + "/%d")
    ensures IsPaginated(request, base) && !EndsWithPageNumber(request, base) ==> r == Slash(request)
  {
    var suffix := base + "/%d";
    var path :=
      if IsPaginated(request, base) then
        if EndsWithPageNumber(request, base) then
          request[..|request| - TrailingDigits(request) - 1 - |base|] + base + "/%d"
        else request
      else request + "/" + base + "/%d";
    assert !EndsWith(request, "/") ==> EndsWith(path, suffix) by {
      if !EndsWith(request, "/") {
        if IsPaginated(request, base) {
          var head := request[..|request| - TrailingDigits(request) - 1 - |base|];
          assert head + base + "/%d" == head + suffix;
          EndsWithAppended(head, suffix);
        } else {
          assert request + "/" + base + "/%d" == (request + "/") + suffix;
          EndsWithAppended(request + "/", suffix);
        }
      }
    }
    var r := Slash(path);
    assert EndsWith(path, suffix) ==> EndsWith(r, suffix) by {
      if EndsWith(path, suffix) && !StartsWith(path, "/") {
        assert r == [] + "/" + path;
        EndsWithAppended("/", path);
        SlashKeepsSuffix(path, suffix);
      }
    }
    assert r[..1] == "/";
    r
  }

  lemma EndsWithAppended(a: string, b: string)
    ensures EndsWith(a + b, b)
  {
    assert (a + b)[|a + b| - |b|..] == b;
  }

  lemma SlashKeepsSuffix(path: string, suffix: string)
    requires EndsWith(path, suffix)
    ensures EndsWith("/" + path, suffix)
  {
    assert ("/" + path)[|"/" + path| - |suffix|..] == path[|path| - |suffix|..];
  }

  /** Page `n` of a request yields the same template as the request itself. */
  lemma {:induction false} TemplateIgnoresPageNumber(prefix: string, base: string, n: nat)
    requires |base| > 0 && AllCss(base)
    requires !IsPaginated(prefix, base)
    ensures PathTemplate(prefix + "/" + base + "/" + NatToString(n), base) == PathTemplate(prefix, base)
  {
    var digits := NatToString(n);
    var request := prefix + "/" + base + "/" + digits;
    var head := prefix + "/" + base + "/";
    assert request == head + digits;
    TrailingDigitsOfDigitRun(head, digits);
    assert request[..|request| - |digits|] == head;
    assert head[|head| - 1 - |base|..|head| - 1] == base;
    assert EqualsIgnoreCase(base, base);
    assert EndsWithPageNumber(request, base);
    assert request[..|request| - |digits| - 1 - |base|] == prefix + "/";
    assert prefix + "/" + base + "/%d" == (prefix + "/") + base + "/%d";
  }

  /** Digits appended after a slash are exactly the trailing digits. */
  lemma {:induction false} TrailingDigitsOfDigitRun(head: string, digits: string)
    requires |head| > 0 && head[|head| - 1] == '/'
    requires AllDigits(digits)
    ensures TrailingDigits(head + digits) == |digits|
    decreases |digits|
  {
    if digits == [] {
      assert head + digits == head;
    } else {
      var s := head + digits;
      var init := digits[..|digits| - 1];
      assert s[..|s| - 1] == head + init;
      TrailingDigitsOfDigitRun(head, init);
    }
  }

  /**
   * The permalink branch of `get_request_path`: false before the request is
   * parsed (`request` is `None`) and when the slashed template is empty.
   */
  function RequestPath(request: Option<string>, base: string, trailingSlashIt: string -> string): (r: Option<string>)
    requires |base| > 0 && AllCss(base)
    ensures request.None? ==> r.None?
    ensures r.Some? ==> Truthy(Str(r.value))
    ensures request.Some? && Truthy(Str(trailingSlashIt(PathTemplate(request.value, base)))) ==>
              r == Some(trailingSlashIt(PathTemplate(request.value, base)))
    ensures request.Some? && !Truthy(Str(trailingSlashIt(PathTemplate(request.value, base)))) ==> r.None?
  {
    match request
    case None => None
    case Some(req) =>
      var path := trailingSlashIt(PathTemplate(req, base));
      if Truthy(Str(path)) then Some(path) else None
  }

  // ---------------------------------------------------------------------------
  // filter_grunion_redirect_url

  /** The query arguments infinite scroll adds to its requests. */
  const ScrollArgs: seq<string> := ["infinity", "action", "page", "order", "scripts", "styles"]

  /** `filter_grunion_redirect_url`: strips the scroll arguments from a URL that carries 'infinity=scrolling'. */
  function GrunionRedirect(url: string, removeQueryArg: (seq<string>, string) -> string): (r: string)
    ensures !Contains(url, "infinity=scrolling") ==> r == url
    ensures Contains(url, "infinity=scrolling") ==> r == removeQueryArg(ScrollArgs, url)
  {
    if Contains(url, "infinity=scrolling") then removeQueryArg(ScrollArgs, url) else url
  }

  /**
   * Filtering twice is filtering once, for every URL, given only that removing
   * the same arguments a second time changes nothing (as `remove_query_arg` does):
   * whether or not the marker survives the first removal.
   */
  lemma GrunionRedirectIdempotent(url: string, removeQueryArg: (seq<string>, string) -> string)
    requires removeQueryArg(ScrollArgs, removeQueryArg(ScrollArgs, url)) == removeQueryArg(ScrollArgs, url)
    ensures GrunionRedirect(GrunionRedirect(url, removeQueryArg), removeQueryArg) == GrunionRedirect(url, removeQueryArg)
  {
  }

  /**
   * When removing the scroll arguments never leaves the marker behind, on any
   * URL, the filtered URL never carries the marker and is already a fixed
   * point of the filter: no idempotence of the removal itself is needed.
   */
  lemma GrunionRedirectClearsMarker(url: string, removeQueryArg: (seq<string>, string) -> string)
    requires forall u :: !Contains(removeQueryArg(ScrollArgs, u), "infinity=scrolling")
    ensures !Contains(GrunionRedirect(url, removeQueryArg), "infinity=scrolling")
    ensures GrunionRedirect(GrunionRedirect(url, removeQueryArg), removeQueryArg) == GrunionRedirect(url, removeQueryArg)
  {
  }
}
