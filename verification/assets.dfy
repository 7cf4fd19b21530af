/**
 * `filter_infinite_scroll_results`: after a batch is rendered, the scripts and
 * stylesheets it enqueued that the page does not have yet are reported to the
 * browser, with their sources, versions and (for stylesheets) media and IE
 * conditions.
 *
 * `$wp_scripts` and `$wp_styles` become `Registry` values; `sanitize_text_field`,
 * `add_query_arg`, `esc_attr` and `print_extra_script` are the functions of a
 * `Helpers` value. In the results, a `scripts` or `styles` key that is absent
 * is `None`.
 */
module Assets {
  import opened Strings
  import opened Php

  /** A registered script or stylesheet. `conditional` is "" when not set; `mediaArgs` is its `args`. */
  datatype Dependency = Dependency(src: string, ver: Value, conditional: string, mediaArgs: Option<string>)

  /** The parts of `WP_Scripts` / `WP_Styles` read here. `inFooter` is `None` when it is not an array. */
  datatype Registry = Registry(
    done: seq<string>,
    registered: map<string, Dependency>,
    inFooter: Option<seq<string>>,
    baseUrl: string,
    defaultVersion: string,
    args: map<string, string>)

  datatype Helpers = Helpers(
    sanitizeTextField: string -> string,
    addQueryArg: (string, string, string) -> string,
    escAttr: string -> string,
    extraScript: string -> Value)

  /** One entry of the `scripts` or `styles` list sent to the page. */
  datatype Item =
    | Script(handle: string, footer: bool, extraData: Value, src: string)
    | Style(handle: string, media: string, src: string, conditional: Option<string>)

  /** The results of a batch: its `type`, the other keys, and the optional `scripts` and `styles`. */
  datatype Results = Results(kind: Value, fields: seq<(string, Value)>,
                             scripts: Option<seq<Item>>, styles: Option<seq<Item>>)

  // ---------------------------------------------------------------------------
  // Handles

  /** The handles the page reports it has: sanitised values of the request array, or none at all. */
  function InitialHandles(request: Value, sanitize: string -> string): (r: Option<seq<string>>)
    ensures r.Some? <==> request.Arr?
    ensures r.Some? ==> |r.value| == |request.entries|
    ensures r.Some? ==> forall i :: 0 <= i < |request.entries| ==> r.value[i] == sanitize(ToStr(request.entries[i].1))
  {
    if request.Arr? then
      Some(seq(|request.entries|, i requires 0 <= i < |request.entries| => sanitize(ToStr(request.entries[i].1))))
    else None
  }

  /** `array_diff($done, $initial)`: the handles done but not initially present, in order. */
  function Diff(done: seq<string>, initial: seq<string>): (r: seq<string>)
    ensures forall h :: h in r <==> h in done && h !in initial
  {
    if done == [] then []
    else
      var init := done[..|done| - 1];
      var last := done[|done| - 1];
      assert done == init + [last];
      Diff(init, initial) + (if last in initial then [] else [last])
  }

  // ---------------------------------------------------------------------------
  // Source and version

  /** The source URL: a source that does not start with 'http' is relative to the base URL. */
  function SourceUrl(src: string, baseUrl: string): (r: string)
    ensures EndsWith(r, src)
    ensures StartsWith(src, "http") ==> r == src
    ensures !StartsWith(src, "http") ==> r == baseUrl + src
  {
    if StartsWith(src, "http") then src else baseUrl + src
  }

  /** With an absolute base URL, every source is absolute. */
  lemma SourceIsAbsolute(src: string, baseUrl: string)
    requires StartsWith(baseUrl, "http")
    ensures StartsWith(SourceUrl(src, baseUrl), "http")
  {
    if !StartsWith(src, "http") {
      assert (baseUrl + src)[..4] == baseUrl[..4];
    }
  }

  /**
   * The `ver` query argument: none for a null version, the registry's default
   * for an empty one; extra arguments are appended after '&amp;', or stand alone.
   */
  function Version(ver: Value, defaultVersion: string, extraArgs: Option<string>): (r: string)
    ensures extraArgs.None? && ver.Null? ==> r == ""
    ensures extraArgs.Some? ==> EndsWith(r, extraArgs.value)
    ensures extraArgs.None? && IsScalar(ver) && Truthy(ver) ==> r == ToStr(ver)
    ensures extraArgs.Some? && IsScalar(ver) && Truthy(ver) ==> StartsWith(r, ToStr(ver) + "&amp;")
    ensures extraArgs.Some? && IsScalar(ver) && Truthy(ver) ==> r == ToStr(ver) + "&amp;" + extraArgs.value
    ensures extraArgs.None? && !ver.Null? && !Truthy(ver) ==> r == defaultVersion
    ensures extraArgs.Some? && ver.Null? ==> r == extraArgs.value
    ensures extraArgs.Some? && !ver.Null? && !Truthy(ver) ==>
              r == if Truthy(Str(defaultVersion)) then defaultVersion + "&amp;" + extraArgs.value else extraArgs.value
  {
    var base := if ver.Null? then "" else if Truthy(ver) then ToStr(ver) else defaultVersion;
    assert IsScalar(ver) && Truthy(ver) ==> Truthy(Str(base)) by {
      if ver.Int? {
        IntToStringRoundTrip(ver.i);
      }
    }
    if extraArgs.Some? then
      if Truthy(Str(base)) then
        var r := base + "&amp;" + extraArgs.value;
        assert r == (base + "&amp;") + extraArgs.value;
        r
      else extraArgs.value
    else base
  }

  function ExtraArgs(reg: Registry, handle: string): Option<string> {
    if handle in reg.args then Some(reg.args[handle]) else None
  }

  function FullSource(reg: Registry, dep: Dependency, handle: string, helpers: Helpers): string {
    helpers.addQueryArg("ver", Version(dep.ver, reg.defaultVersion, ExtraArgs(reg, handle)),
                        SourceUrl(dep.src, reg.baseUrl))
  }

  // ---------------------------------------------------------------------------
  // IE conditional comments

  /** 'IE' at the start of `t`, in any case, as PCRE's `i` flag compares ASCII letters. */
  predicate StartsIe(t: string) {
    |t| >= 2 && LowerChar(t[0]) == 'i' && LowerChar(t[1]) == 'e'
  }

  /**
   * `preg_replace('#!\s*IE(\s*\d+){0}#i', '1==2', s)`. The group repeated zero
   * times matches nothing, so the pattern is '!', white space, then 'IE' in any case.
   * PCRE's `\s` is the same set of characters `SkipSpace` skips.
   */
  function ReplaceNegatedIe(s: string): (r: string)
    ensures '!' !in s ==> r == s
    decreases |s|
  {
    if s == [] then []
    else if s[0] == '!' then
      var t := SkipSpace(s[1..]);
      if StartsIe(t) then "1==2" + ReplaceNegatedIe(t[2..])
      else "!" + ReplaceNegatedIe(s[1..])
    else
      assert s == [s[0]] + s[1..];
      [s[0]] + ReplaceNegatedIe(s[1..])
  }

  /** What the pattern matches at the start of `s`: '!', white space, then 'IE'. */
  predicate StartsNegatedIe(s: string) {
    |s| > 0 && s[0] == '!' && StartsIe(SkipSpace(s[1..]))
  }

  predicate HasNegatedIe(s: string) {
    exists i :: 0 <= i < |s| && StartsNegatedIe(s[i..])
  }

  /** The rewrite keeps the first character, except that a leading '!' becomes '!' or '1'. */
  lemma ReplaceNegatedIeFirst(s: string)
    requires s != []
    ensures ReplaceNegatedIe(s) != []
    ensures s[0] != '!' ==> ReplaceNegatedIe(s)[0] == s[0]
    ensures s[0] == '!' ==> ReplaceNegatedIe(s)[0] in {'!', '1'}
  {
  }

  /** After the rewrite, 'IE' can follow white space only where it already did. */
  lemma {:induction false} IeAfterSpaceOnlyFromInput(s: string)
    ensures StartsIe(SkipSpace(ReplaceNegatedIe(s))) ==> StartsIe(SkipSpace(s))
    decreases |s|
  {
    if s != [] && StartsIe(SkipSpace(ReplaceNegatedIe(s))) {
      var r := ReplaceNegatedIe(s);
      ReplaceNegatedIeFirst(s);
      if s[0] == '!' {
        assert !IsNumberSpace(r[0]);
      } else if IsNumberSpace(s[0]) {
        assert r[1..] == ReplaceNegatedIe(s[1..]);
        IeAfterSpaceOnlyFromInput(s[1..]);
      } else {
        IeRestartsAtLetter(s);
      }
    }
  }

  /** The case of `IeAfterSpaceOnlyFromInput` where `s` starts with neither '!' nor space. */
  lemma IeRestartsAtLetter(s: string)
    requires s != [] && s[0] != '!' && !IsNumberSpace(s[0])
    requires StartsIe(SkipSpace(ReplaceNegatedIe(s)))
    ensures StartsIe(s)
  {
    var rest := ReplaceNegatedIe(s[1..]);
    ReplaceNegatedIeFirst(s);
    assert ReplaceNegatedIe(s) == [s[0]] + rest;
    assert rest != [] && ReplaceNegatedIe(s)[1] == rest[0];
    ReplaceNegatedIeFirst(s[1..]);
  }

  /**
   * No match starts inside `p + rest` when `rest` holds no match and none of the
   * characters of `p` from position `from` on is '!', and no match starts before `from`.
   */
  lemma NoNegatedIeAfterPlain(p: string, rest: string, from: nat)
    requires from <= |p|
    requires forall i :: from <= i < |p| ==> p[i] != '!'
    requires forall i :: 0 <= i < from ==> !StartsNegatedIe((p + rest)[i..])
    requires !HasNegatedIe(rest)
    ensures !HasNegatedIe(p + rest)
  {
    var r := p + rest;
    forall i | 0 <= i < |r|
      ensures !StartsNegatedIe(r[i..])
    {
      if i >= |p| {
        assert r[i..] == rest[i - |p|..];
      } else if i >= from {
        assert r[i..][0] == p[i];
      }
    }
  }

  /** The rewrite leaves no negated IE check behind: every match of the pattern is replaced. */
  lemma {:induction false} NoNegatedIeRemains(s: string)
    ensures !HasNegatedIe(ReplaceNegatedIe(s))
    decreases |s|
  {
    if s != [] {
      if s[0] != '!' {
        NoNegatedIeRemains(s[1..]);
        NoNegatedIeAfterPlain([s[0]], ReplaceNegatedIe(s[1..]), 0);
      } else if StartsIe(SkipSpace(s[1..])) {
        var t := SkipSpace(s[1..]);
        NoNegatedIeRemains(t[2..]);
        NoNegatedIeAfterPlain("1==2", ReplaceNegatedIe(t[2..]), 0);
      } else {
        NoNegatedIeRemains(s[1..]);
        IeAfterSpaceOnlyFromInput(s[1..]);
        KeptBangNotNegated(ReplaceNegatedIe(s[1..]));
      }
    }
  }

  /** A kept '!' is not followed by 'IE', so it starts no match. */
  lemma KeptBangNotNegated(rest: string)
    requires !HasNegatedIe(rest)
    requires !StartsIe(SkipSpace(rest))
    ensures !HasNegatedIe("!" + rest)
  {
    var r := "!" + rest;
    assert r[1..] == rest;
    assert !StartsNegatedIe(r);
    NoNegatedIeAfterPlain("!", rest, 1);
  }

  /**
   * The conversion of an IE conditional into a test the script evaluates:
   * comparison words become operators on '%ver' (in the order lte, lt, gte, gt),
   * negated IE checks become false, and every 'IE' is removed.
   */
  function ConvertConditional(c: string): (r: string)
    ensures 'l' !in c && 'g' !in c && '!' !in c ==> r == ReplaceAll(c, "IE", "")
  {
    ComparisonPassesKeep(c);
    var ops := ReplaceAll(ReplaceAll(ReplaceAll(ReplaceAll(c, "lte", "%ver <="), "lt", "%ver <"), "gte", "%ver >="), "gt", "%ver >");
    ReplaceAll(ReplaceNegatedIe(ops), "IE", "")
  }

  /** A string without the first character of a pattern does not contain it. */
  lemma {:induction false} MissingFirstCharNotContained(s: string, pat: string)
    requires |pat| > 0
    requires pat[0] !in s
    ensures !Contains(s, pat)
    decreases |s|
  {
    if s != [] {
      assert !StartsWith(s, pat) by {
        if |pat| <= |s| { assert s[..|pat|][0] == s[0]; }
      }
      assert s == [s[0]] + s[1..];
      MissingFirstCharNotContained(s[1..], pat);
    }
  }

  /** A conditional holding no comparison word, no negation and no 'IE' is kept as it is. */
  lemma ConvertPlainConditional(c: string)
    requires !Contains(c, "lte") && !Contains(c, "lt") && !Contains(c, "gte") && !Contains(c, "gt")
    requires forall i :: 0 <= i < |c| ==> c[i] != '!'
    requires !Contains(c, "IE")
    ensures ConvertConditional(c) == c
  {
  }

  /** The comparison passes leave a string without 'l' and 'g' alone. */
  lemma ComparisonPassesKeep(c: string)
    ensures 'l' !in c && 'g' !in c ==>
      ReplaceAll(ReplaceAll(ReplaceAll(ReplaceAll(c, "lte", "%ver <="), "lt", "%ver <"), "gte", "%ver >="), "gt", "%ver >") == c
  {
    if 'l' !in c && 'g' !in c {
      MissingFirstCharNotContained(c, "lte");
      MissingFirstCharNotContained(c, "lt");
      MissingFirstCharNotContained(c, "gte");
      MissingFirstCharNotContained(c, "gt");
    }
  }

  /** Spaces before a string are all skipped. */
  lemma {:induction false} SkipSpaces(ws: string, t: string)
    requires forall i :: 0 <= i < |ws| ==> ws[i] == ' '
    ensures SkipSpace(ws + t) == SkipSpace(t)
  {
    if ws != [] {
      assert (ws + t)[1..] == ws[1..] + t;
      SkipSpaces(ws[1..], t);
    } else {
      assert ws + t == t;
    }
  }

  /** A negated check, with any spaces after the '!', becomes a condition that never holds. */
  lemma ConvertNegation(ws: string)
    requires forall i :: 0 <= i < |ws| ==> ws[i] == ' '
    ensures ConvertConditional("!" + ws + "IE") == "1==2"
  {
    var c := "!" + ws + "IE";
    assert 'l' !in c && 'g' !in c by {
      forall k | 0 <= k < |c|
        ensures c[k] != 'l' && c[k] != 'g'
      {
        if 1 <= k <= |ws| { assert c[k] == ws[k - 1]; }
      }
    }
    ComparisonPassesKeep(c);
    NegationReplaced(ws);
    FalseConditionKept();
  }

  lemma NegationReplaced(ws: string)
    requires forall i :: 0 <= i < |ws| ==> ws[i] == ' '
    ensures ReplaceNegatedIe("!" + ws + "IE") == "1==2"
  {
    var tail := ws + "IE";
    var c := "!" + tail;
    assert c == "!" + ws + "IE";
    assert c[1..] == tail;
    SkipSpaces(ws, "IE");
    assert SkipSpace("IE") == "IE";
    NegatedIeStep(c);
  }

  lemma NegatedIeStep(s: string)
    requires |s| > 0 && s[0] == '!' && SkipSpace(s[1..]) == "IE"
    ensures ReplaceNegatedIe(s) == "1==2"
  {
    var t := SkipSpace(s[1..]);
    assert StartsIe(t);
    assert t[2..] == [];
  }

  lemma FalseConditionKept()
    ensures ReplaceAll("1==2", "IE", "") == "1==2"
  {
    MissingFirstCharNotContained("1==2", "IE");
  }

  /** Removing 'IE' once can bring two halves together: 'IE' may remain afterwards. */
  lemma IeRemovalCanLeaveIe()
    ensures ConvertConditional("IIEE") == "IE"
  {
    var c := "IIEE";
    ComparisonPassesKeep(c);
    assert ReplaceNegatedIe(c) == c;
    IeRemovedOnce();
  }

  lemma IeRemovedOnce()
    ensures ReplaceAll("IIEE", "IE", "") == "IE"
  {
    var c := "IIEE";
    assert c[1..] == "IEE" && c[1..][..2] == "IE" && c[1..][2..] == "E";
    assert ReplaceAll("E", "IE", "") == "E";
    assert ReplaceAll("IEE", "IE", "") == "E";
  }

  // ---------------------------------------------------------------------------
  // One entry per new handle

  /**
   * The entry for one new script: in the footer exactly when the registry lists
   * it there, its extra data, and its full source with the version attached.
   */
  function ScriptFor(reg: Registry, dep: Dependency, handle: string, helpers: Helpers): (r: Item)
    ensures r.Script? && r.handle == handle
    ensures r.footer <==> reg.inFooter.Some? && handle in reg.inFooter.value
    ensures r.extraData == helpers.extraScript(handle)
    ensures r.src == helpers.addQueryArg("ver", Version(dep.ver, reg.defaultVersion, ExtraArgs(reg, handle)),
                                         SourceUrl(dep.src, reg.baseUrl))
  {
    Script(handle,
           reg.inFooter.Some? && handle in reg.inFooter.value,
           helpers.extraScript(handle),
           FullSource(reg, dep, handle, helpers))
  }

  /**
   * The entry for one new stylesheet: media 'all' unless the registration names
   * it, the full source, and the IE condition converted when there is a non-empty one.
   */
  function StyleFor(reg: Registry, dep: Dependency, handle: string, helpers: Helpers): (r: Item)
    ensures r.Style? && r.handle == handle
    ensures dep.mediaArgs.None? ==> r.media == "all"
    ensures dep.mediaArgs.Some? ==> r.media == helpers.escAttr(dep.mediaArgs.value)
    ensures r.src == helpers.addQueryArg("ver", Version(dep.ver, reg.defaultVersion, ExtraArgs(reg, handle)),
                                         SourceUrl(dep.src, reg.baseUrl))
    ensures r.conditional.Some? <==> Truthy(Str(dep.conditional))
    ensures r.conditional.Some? ==> r.conditional.value == ConvertConditional(dep.conditional)
  {
    Style(handle,
          if dep.mediaArgs.Some? then helpers.escAttr(dep.mediaArgs.value) else "all",
          FullSource(reg, dep, handle, helpers),
          if Truthy(Str(dep.conditional)) then Some(ConvertConditional(dep.conditional)) else None)
  }

  function Handles(items: seq<Item>): (r: seq<string>)
    ensures |r| == |items| && forall i :: 0 <= i < |items| ==> r[i] == items[i].handle
  {
    seq(|items|, i requires 0 <= i < |items| => items[i].handle)
  }

  /** The script loop: registered handles only, each described from its registration. */
  function Scripts(reg: Registry, handles: seq<string>, helpers: Helpers): (r: seq<Item>)
    ensures forall h :: h in Handles(r) <==> h in handles && h in reg.registered
    ensures forall i :: 0 <= i < |r| ==>
              r[i].handle in reg.registered && r[i] == ScriptFor(reg, reg.registered[r[i].handle], r[i].handle, helpers)
  {
    if handles == [] then []
    else
      var init := handles[..|handles| - 1];
      var h := handles[|handles| - 1];
      var s := Scripts(reg, init, helpers);
      assert handles == init + [h];
      if h in reg.registered then
        var r := s + [ScriptFor(reg, reg.registered[h], h, helpers)];
        assert Handles(r) == Handles(s) + [h];
        r
      else s
  }

  /** The stylesheet loop: registered handles only, each described from its registration. */
  function Styles(reg: Registry, handles: seq<string>, helpers: Helpers): (r: seq<Item>)
    ensures forall h :: h in Handles(r) <==> h in handles && h in reg.registered
    ensures forall i :: 0 <= i < |r| ==>
              r[i].handle in reg.registered && r[i] == StyleFor(reg, reg.registered[r[i].handle], r[i].handle, helpers)
  {
    if handles == [] then []
    else
      var init := handles[..|handles| - 1];
      var h := handles[|handles| - 1];
      var s := Styles(reg, init, helpers);
      assert handles == init + [h];
      if h in reg.registered then
        var r := s + [StyleFor(reg, reg.registered[h], h, helpers)];
        assert Handles(r) == Handles(s) + [h];
        r
      else s
  }

  /**
   * What becomes of one results key: replaced by the new items when the page
   * sent its handles and some are new, kept otherwise; dropped when empty.
   */
  function Section<T>(prior: Option<seq<T>>, initial: Option<seq<string>>, done: seq<string>, items: seq<T>): (r: Option<seq<T>>)
    ensures r.Some? ==> |r.value| > 0
    ensures initial.Some? && |Diff(done, initial.value)| > 0 ==> r == (if |items| > 0 then Some(items) else None)
    ensures (initial.None? || |Diff(done, initial.value)| == 0) && prior.Some? && |prior.value| > 0 ==> r == prior
    ensures (initial.None? || |Diff(done, initial.value)| == 0) && (prior.None? || |prior.value| == 0) ==> r.None?
  {
    var current := if initial.Some? && |Diff(done, initial.value)| > 0 then Some(items) else prior;
    if current.Some? && |current.value| > 0 then current else None
  }

  predicate IsSuccess(results: Results) {
    LooseEqualsWord(results.kind, "success")
  }

  function NewScripts(scripts: Registry, initial: Option<seq<string>>, helpers: Helpers): seq<Item> {
    Scripts(scripts, if initial.Some? then Diff(scripts.done, initial.value) else [], helpers)
  }

  function NewStyles(styles: Registry, initial: Option<seq<string>>, helpers: Helpers): seq<Item> {
    Styles(styles, if initial.Some? then Diff(styles.done, initial.value) else [], helpers)
  }

  /**
   * `filter_infinite_scroll_results`. `requestScripts` and `requestStyles` are
   * the request's `scripts` and `styles` parameters (null when absent).
   */
  function FilterResults(results: Results, requestScripts: Value, requestStyles: Value,
                         scripts: Registry, styles: Registry, helpers: Helpers): (r: Results)
    ensures !IsSuccess(results) ==> r == results
    ensures r.kind == results.kind && r.fields == results.fields
    ensures IsSuccess(results) && r.scripts.Some? ==> |r.scripts.value| > 0
    ensures IsSuccess(results) && r.styles.Some? ==> |r.styles.value| > 0
    ensures IsSuccess(results) && requestScripts.Arr? ==>
              var initial := InitialHandles(requestScripts, helpers.sanitizeTextField).value;
              |Diff(scripts.done, initial)| > 0 ==>
                forall h :: (r.scripts.Some? && h in Handles(r.scripts.value))
                            <==> h in scripts.done && h !in initial && h in scripts.registered
    ensures IsSuccess(results) && requestStyles.Arr? ==>
              var initial := InitialHandles(requestStyles, helpers.sanitizeTextField).value;
              |Diff(styles.done, initial)| > 0 ==>
                forall h :: (r.styles.Some? && h in Handles(r.styles.value))
                            <==> h in styles.done && h !in initial && h in styles.registered
    ensures IsSuccess(results) &&
            (!requestScripts.Arr? || |Diff(scripts.done, InitialHandles(requestScripts, helpers.sanitizeTextField).value)| == 0) ==>
              r.scripts == if results.scripts.Some? && |results.scripts.value| > 0 then results.scripts else None
    ensures IsSuccess(results) &&
            (!requestStyles.Arr? || |Diff(styles.done, InitialHandles(requestStyles, helpers.sanitizeTextField).value)| == 0) ==>
              r.styles == if results.styles.Some? && |results.styles.value| > 0 then results.styles else None
  {
    if !IsSuccess(results) then results
    else
      var initialScripts := InitialHandles(requestScripts, helpers.sanitizeTextField);
      var initialStyles := InitialHandles(requestStyles, helpers.sanitizeTextField);
      results.(
        scripts := Section(results.scripts, initialScripts, scripts.done, NewScripts(scripts, initialScripts, helpers)),
        styles := Section(results.styles, initialStyles, styles.done, NewStyles(styles, initialStyles, helpers)))
  }

  /** Without the page's handle lists, the results keep whatever non-empty lists they had. */
  lemma NoHandlesKeepsResults(results: Results, scripts: Registry, styles: Registry, helpers: Helpers)
    requires results.scripts.Some? ==> |results.scripts.value| > 0
    requires results.styles.Some? ==> |results.styles.value| > 0
    ensures FilterResults(results, Null, Null, scripts, styles, helpers) == results
  {
  }
}
