/**
 * The settings normaliser of The_Neverending_Home_Page (`get_settings`): it reads
 * the loosely typed array a theme passes to `add_theme_support('infinite-scroll', ...)`,
 * keeps the values of the right type, fills in defaults, and resolves the
 * settings that depend on site options and widget areas.
 *
 * The WordPress state it consults is an explicit `Site`; `is_active_sidebar` and
 * `is_callable` are oracles given as sets, and `sanitize_title` is a function
 * parameter. The `infinite_scroll_settings` and `infinite_scroll_has_footer_widgets`
 * filters are the identity.
 */
module Settings {
  import opened Strings
  import opened Php

  /** A setting that is either an on/off flag or a name (an HTML class or id). */
  datatype Switch = Flag(on: bool) | Named(name: string)

  /** `footer_widgets` before it is resolved: a flag, one widget area, or several. */
  datatype FooterWidgets = Widgets(present: bool) | Sidebar(id: string) | Sidebars(ids: seq<string>)

  /** The settings array while the theme's options are being read. */
  datatype Draft = Draft(
    scrollType: Value,
    requestedType: Value,
    footerWidgets: FooterWidgets,
    container: string,
    wrapper: Switch,
    render: Value,
    footer: Switch,
    footerCallback: Value,
    postsPerPage: Option<int>,
    clickHandle: bool)

  /** The normalised settings object. */
  datatype Settings = Settings(
    scrollType: Value,
    requestedType: Value,
    footerWidgets: bool,
    container: string,
    wrapper: Switch,
    render: Value,
    footer: Switch,
    footerCallback: Value,
    postsPerPage: int,
    clickHandle: bool)

  /** The WordPress state `get_settings` reads. */
  datatype Site = Site(
    themeSupport: Value,                 // get_theme_support('infinite-scroll')
    enabledOption: Value,                // get_option('infinite_scroll'); Bool(false) when unset
    postsPerPageOption: Value,           // get_option('posts_per_page')
    legacyFooterWidgets: Option<Value>,  // infinite_scroll_has_footer_widgets(), when that function is defined
    activeSidebars: set<string>,         // the widget areas is_active_sidebar reports as non-empty
    callables: set<Value>,               // the values is_callable accepts
    sanitizeTitle: string -> string)     // sanitize_title

  /** How the `type` option is checked against `array('scroll', 'click')`. */
  datatype TypeCheck = Loose | Strict

  const Defaults: Draft := Draft(
    Str("scroll"), Str("scroll"), Widgets(false), "content", Flag(true),
    Bool(false), Flag(true), Bool(false), None, true)

  /** A name setting that was stored: only class characters, and not empty in PHP's sense. */
  predicate WellNamed(s: Switch) {
    s.Named? ==> AllCss(s.name) && Truthy(Str(s.name))
  }

  /** What every draft keeps: the container and the stored names hold only class characters. */
  predicate WellFormedDraft(d: Draft) {
    AllCss(d.container) && WellNamed(d.wrapper) && WellNamed(d.footer)
  }

  /** `in_array($value, array('scroll', 'click'))`, loose as written or strict. */
  predicate AcceptsType(v: Value, check: TypeCheck) {
    match check
    case Loose => LooseEqualsWord(v, "scroll") || LooseEqualsWord(v, "click")
    case Strict => v == Str("scroll") || v == Str("click")
  }

  /**
   * Keys that reach `case 'type'` of the switch. PHP stores the key "0" as the
   * integer 0, and PHP 7 compares `0 == 'type'` as true, so the first element of
   * a list-shaped options array reaches that case too. That case stores the value
   * under the key itself, so only 'type' sets the type; both set the requested type.
   */
  predicate IsTypeKey(key: string) {
    key in RequestedTypeKeys
  }

  /** The keys whose accepted value becomes the type. */
  const TypeKeys: set<string> := {"type"}

  /** The keys whose accepted value becomes the requested type. */
  const RequestedTypeKeys: set<string> := {"type", "0"}

  /** The value an option holds, or `otherwise` when there is none. */
  function ValueOr<T>(o: Option<T>, otherwise: T): T {
    if o.Some? then o.value else otherwise
  }

  predicate IsKnownKey(key: string) {
    || IsTypeKey(key)
    || key in {"footer_widgets", "container", "wrapper", "render", "footer",
               "footer_callback", "posts_per_page", "click_handle"}
  }

  /** `preg_replace` of the class pattern on a scalar; arrays and objects give nothing. */
  function StripValue(v: Value): (r: Option<string>)
    ensures r.Some? ==> AllCss(r.value)
    ensures v.Str? ==> r == Some(StripCss(v.s))
  {
    if IsScalar(v) then Some(StripCss(ToStr(v))) else None
  }

  /** A stripped name, or nothing when it is empty in PHP's sense. */
  function StrippedName(v: Value): (r: Option<string>)
    ensures r.Some? ==> AllCss(r.value) && Truthy(Str(r.value))
  {
    match StripValue(v)
    case Some(s) => if Truthy(Str(s)) then Some(s) else None
    case None => None
  }

  // ---------------------------------------------------------------------------
  // What one option asks for, key by key: `None` when the switch leaves the
  // setting as it was. These are the reference readings of the switch's cases.

  /** 'container': the value with non-class characters stripped, unless that is empty. */
  function ContainerEffect(site: Site, v: Value): (r: Option<string>)
    ensures v.Str? && Truthy(Str(StripCss(v.s))) ==> r == Some(StripCss(v.s))
    ensures v.Str? && !Truthy(Str(StripCss(v.s))) ==> r.None?
    ensures r.Some? ==> AllCss(r.value) && Truthy(Str(r.value))
  {
    StrippedName(v)
  }

  /** 'wrapper': a boolean is the flag; anything else is a class name, unless it strips to nothing. */
  function WrapperEffect(site: Site, v: Value): (r: Option<Switch>)
    ensures v.Bool? ==> r == Some(Flag(v.b))
    ensures v.Str? && Truthy(Str(StripCss(v.s))) ==> r == Some(Named(StripCss(v.s)))
    ensures v.Str? && !Truthy(Str(StripCss(v.s))) ==> r.None?
    ensures r.Some? ==> WellNamed(r.value)
  {
    if v.Bool? then Some(Flag(v.b))
    else match StrippedName(v)
      case Some(name) => Some(Named(name))
      case None => None
  }

  /** 'footer': a boolean is the flag; a string is an element id, unless it strips to nothing; nothing else counts. */
  function FooterEffect(site: Site, v: Value): (r: Option<Switch>)
    ensures v.Bool? ==> r == Some(Flag(v.b))
    ensures v.Str? && Truthy(Str(StripCss(v.s))) ==> r == Some(Named(StripCss(v.s)))
    ensures !v.Bool? && !(v.Str? && Truthy(Str(StripCss(v.s)))) ==> r.None?
    ensures r.Some? ==> WellNamed(r.value)
  {
    if v.Bool? then Some(Flag(v.b))
    else if v.Str? then
      match StrippedName(v)
      case Some(name) => Some(Named(name))
      case None => None
    else None
  }

  /** 'footer_widgets': a flag, one sanitised widget area, or a list of them. */
  function FooterWidgetsEffect(site: Site, v: Value): (r: Option<FooterWidgets>)
    ensures v.Bool? ==> r == Some(Widgets(v.b))
    ensures v.Str? ==> r == Some(Sidebar(site.sanitizeTitle(v.s)))
    ensures v.Arr? ==> r.Some? && r.value.Sidebars? && |r.value.ids| == |v.entries|
                       && forall i :: 0 <= i < |v.entries| ==> r.value.ids[i] == site.sanitizeTitle(ToStr(v.entries[i].1))
    ensures !v.Bool? && !v.Str? && !v.Arr? ==> r.None?
  {
    match v
    case Bool(b) => Some(Widgets(b))
    case Str(id) => Some(Sidebar(site.sanitizeTitle(id)))
    case Arr(entries) =>
      Some(Sidebars(seq(|entries|, i requires 0 <= i < |entries| => site.sanitizeTitle(ToStr(entries[i].1)))))
    case _ => None
  }

  /** 'render': a callable other than `false`. */
  function RenderEffect(site: Site, v: Value): (r: Option<Value>)
    ensures r.Some? <==> v != Bool(false) && v in site.callables
    ensures r.Some? ==> r.value == v
  {
    if v != Bool(false) && v in site.callables then Some(v) else None
  }

  /** 'footer_callback': always stored, as the callable or as `false`. */
  function FooterCallbackEffect(site: Site, v: Value): (r: Option<Value>)
    ensures r.Some?
    ensures v in site.callables ==> r.value == v
    ensures v !in site.callables ==> r.value == Bool(false)
  {
    Some(if v in site.callables then v else Bool(false))
  }

  /** 'click_handle': a boolean only. */
  function ClickHandleEffect(site: Site, v: Value): (r: Option<bool>)
    ensures r.Some? <==> v.Bool?
    ensures v.Bool? ==> r.value == v.b
  {
    if v.Bool? then Some(v.b) else None
  }

  /** One iteration of the loop over the theme's options: the `switch ($key)`. */
  function ApplyOption(d: Draft, key: string, value: Value, site: Site, check: TypeCheck): (r: Draft)
    ensures WellFormedDraft(d) ==> WellFormedDraft(r)
    ensures !IsKnownKey(key) ==> r == d
    ensures !IsTypeKey(key) ==> r.scrollType == d.scrollType && r.requestedType == d.requestedType
    ensures key != "posts_per_page" ==> r.postsPerPage == d.postsPerPage
    ensures key == "container" ==> r.container == ValueOr(ContainerEffect(site, value), d.container)
    ensures key != "container" ==> r.container == d.container
    ensures key == "wrapper" ==> r.wrapper == ValueOr(WrapperEffect(site, value), d.wrapper)
    ensures key != "wrapper" ==> r.wrapper == d.wrapper
    ensures key == "footer" ==> r.footer == ValueOr(FooterEffect(site, value), d.footer)
    ensures key != "footer" ==> r.footer == d.footer
    ensures key == "footer_widgets" ==> r.footerWidgets == ValueOr(FooterWidgetsEffect(site, value), d.footerWidgets)
    ensures key != "footer_widgets" ==> r.footerWidgets == d.footerWidgets
    ensures key == "render" ==> r.render == ValueOr(RenderEffect(site, value), d.render)
    ensures key != "render" ==> r.render == d.render
    ensures key == "footer_callback" ==> r.footerCallback == ValueOr(FooterCallbackEffect(site, value), d.footerCallback)
    ensures key != "footer_callback" ==> r.footerCallback == d.footerCallback
    ensures key == "click_handle" ==> r.clickHandle == ValueOr(ClickHandleEffect(site, value), d.clickHandle)
    ensures key != "click_handle" ==> r.clickHandle == d.clickHandle
  {
    if IsTypeKey(key) then
      if !AcceptsType(value, check) then d
      else if key in TypeKeys then d.(scrollType := value, requestedType := value)
      else d.(requestedType := value)
    else if key == "footer_widgets" then
      match value
      case Str(s) => d.(footerWidgets := Sidebar(site.sanitizeTitle(s)))
      case Arr(entries) =>
        d.(footerWidgets := Sidebars(seq(|entries|, i requires 0 <= i < |entries| => site.sanitizeTitle(ToStr(entries[i].1)))))
      case Bool(b) => d.(footerWidgets := Widgets(b))
      case _ => d
    else if key == "container" then
      match StrippedName(value)
      case Some(s) => d.(container := s)
      case None => d
    else if key == "wrapper" then
      if value.Bool? then d.(wrapper := Flag(value.b))
      else match StrippedName(value)
        case Some(s) => d.(wrapper := Named(s))
        case None => d
    else if key == "render" then
      if value != Bool(false) && value in site.callables then d.(render := value) else d
    else if key == "footer" then
      if value.Bool? then d.(footer := Flag(value.b))
      else if value.Str? then
        match StrippedName(value)
        case Some(s) => d.(footer := Named(s))
        case None => d
      else d
    else if key == "footer_callback" then
      d.(footerCallback := if value in site.callables then value else Bool(false))
    else if key == "posts_per_page" then
      if IsNumeric(value) then d.(postsPerPage := Some(IntCast(value))) else d
    else if key == "click_handle" then
      if value.Bool? then d.(clickHandle := value.b) else d
    else d
  }

  /** A name that strips down to nothing (or to "0") leaves the setting as it was. */
  lemma EmptyNameKeepsSetting(d: Draft, key: string, s: string, site: Site, check: TypeCheck)
    requires key == "container" || key == "wrapper" || key == "footer"
    requires !Truthy(Str(StripCss(s)))
    ensures ApplyOption(d, key, Str(s), site, check) == d
  {
  }

  /** A boolean `wrapper` or `footer` is stored as it is, whatever the setting held before. */
  lemma BooleanSwitchStored(d: Draft, key: string, b: bool, site: Site, check: TypeCheck)
    requires key == "wrapper" || key == "footer"
    ensures key == "wrapper" ==> ApplyOption(d, key, Bool(b), site, check).wrapper == Flag(b)
    ensures key == "footer" ==> ApplyOption(d, key, Bool(b), site, check).footer == Flag(b)
  {
  }

  /** The `foreach` over the theme's options, in order; the last entry is applied last. */
  function ApplyOptions(d: Draft, entries: seq<(string, Value)>, site: Site, check: TypeCheck): (r: Draft)
    ensures WellFormedDraft(d) ==> WellFormedDraft(r)
  {
    if entries == [] then d
    else
      var last := entries[|entries| - 1];
      ApplyOption(ApplyOptions(d, entries[..|entries| - 1], site, check), last.0, last.1, site, check)
  }

  /** The options array, when the theme passed one as its first argument. */
  function ThemeOptions(site: Site): seq<(string, Value)> {
    if site.themeSupport.Arr? && Get(site.themeSupport.entries, "0").Arr?
    then Get(site.themeSupport.entries, "0").entries
    else []
  }

  /** Reference reading of `type`: the last option under one of `keys` whose value is accepted. */
  function LastAcceptedType(entries: seq<(string, Value)>, keys: set<string>, check: TypeCheck): (r: Option<Value>)
    ensures r.Some? ==> AcceptsType(r.value, check)
    ensures r.Some? ==> exists i :: && 0 <= i < |entries| && entries[i].0 in keys && entries[i].1 == r.value
                                    && forall j :: i < j < |entries| && entries[j].0 in keys ==> !AcceptsType(entries[j].1, check)
    ensures r.None? ==> forall i :: 0 <= i < |entries| && entries[i].0 in keys ==> !AcceptsType(entries[i].1, check)
  {
    if entries == [] then None
    else
      var last := entries[|entries| - 1];
      if last.0 in keys && AcceptsType(last.1, check) then Some(last.1)
      else
        var r := LastAcceptedType(entries[..|entries| - 1], keys, check);
        assert forall i :: 0 <= i < |entries| - 1 ==> entries[..|entries| - 1][i] == entries[i];
        r
  }

  /** Reference reading of `posts_per_page`: the last numeric value given for it, cast to an integer. */
  function LastNumericPostsPerPage(entries: seq<(string, Value)>): (r: Option<int>)
    ensures r.Some? ==> exists i :: && 0 <= i < |entries| && entries[i].0 == "posts_per_page"
                                    && IsNumeric(entries[i].1) && IntCast(entries[i].1) == r.value
                                    && forall j :: i < j < |entries| && entries[j].0 == "posts_per_page" ==> !IsNumeric(entries[j].1)
    ensures r.None? ==> forall i :: 0 <= i < |entries| && entries[i].0 == "posts_per_page" ==> !IsNumeric(entries[i].1)
  {
    if entries == [] then None
    else
      var last := entries[|entries| - 1];
      if last.0 == "posts_per_page" && IsNumeric(last.1) then Some(IntCast(last.1))
      else
        var r := LastNumericPostsPerPage(entries[..|entries| - 1]);
        assert forall i :: 0 <= i < |entries| - 1 ==> entries[..|entries| - 1][i] == entries[i];
        r
  }

  /**
   * Reference reading of every other setting: what the last option under `key`
   * that has an effect asks for. Options after it under that key have none.
   */
  function LastEffect<T(==)>(entries: seq<(string, Value)>, key: string, site: Site,
                             effect: (Site, Value) -> Option<T>): (r: Option<T>)
    ensures r.Some? ==> exists i :: && 0 <= i < |entries| && entries[i].0 == key && effect(site, entries[i].1) == r
                                    && forall j :: i < j < |entries| && entries[j].0 == key ==> effect(site, entries[j].1).None?
    ensures r.None? ==> forall i :: 0 <= i < |entries| && entries[i].0 == key ==> effect(site, entries[i].1).None?
  {
    if entries == [] then None
    else
      var last := entries[|entries| - 1];
      if last.0 == key && effect(site, last.1).Some? then effect(site, last.1)
      else
        var r := LastEffect(entries[..|entries| - 1], key, site, effect);
        assert forall i :: 0 <= i < |entries| - 1 ==> entries[..|entries| - 1][i] == entries[i];
        r
  }

  /** Every setting other than the type and page size is what its last effective option asks for, or the draft's own. */
  lemma {:induction false} ApplyOptionsFields(d: Draft, entries: seq<(string, Value)>, site: Site, check: TypeCheck)
    ensures var r := ApplyOptions(d, entries, site, check);
      && r.container == ValueOr(LastEffect(entries, "container", site, ContainerEffect), d.container)
      && r.wrapper == ValueOr(LastEffect(entries, "wrapper", site, WrapperEffect), d.wrapper)
      && r.footer == ValueOr(LastEffect(entries, "footer", site, FooterEffect), d.footer)
      && r.footerWidgets == ValueOr(LastEffect(entries, "footer_widgets", site, FooterWidgetsEffect), d.footerWidgets)
      && r.render == ValueOr(LastEffect(entries, "render", site, RenderEffect), d.render)
      && r.footerCallback == ValueOr(LastEffect(entries, "footer_callback", site, FooterCallbackEffect), d.footerCallback)
      && r.clickHandle == ValueOr(LastEffect(entries, "click_handle", site, ClickHandleEffect), d.clickHandle)
  {
    if entries != [] {
      ApplyOptionsFields(d, entries[..|entries| - 1], site, check);
    }
  }

  /** The type and requested type the options leave behind are the last accepted ones, or the draft's own. */
  lemma {:induction false} ApplyOptionsType(d: Draft, entries: seq<(string, Value)>, site: Site, check: TypeCheck)
    ensures var r := ApplyOptions(d, entries, site, check);
      && r.scrollType == ValueOr(LastAcceptedType(entries, TypeKeys, check), d.scrollType)
      && r.requestedType == ValueOr(LastAcceptedType(entries, RequestedTypeKeys, check), d.requestedType)
  {
    if entries != [] {
      ApplyOptionsType(d, entries[..|entries| - 1], site, check);
    }
  }

  /** The posts-per-page value the options leave behind is the last numeric one. */
  lemma {:induction false} ApplyOptionsPostsPerPage(d: Draft, entries: seq<(string, Value)>, site: Site, check: TypeCheck)
    ensures ApplyOptions(d, entries, site, check).postsPerPage
            == match LastNumericPostsPerPage(entries) { case Some(n) => Some(n) case None => d.postsPerPage }
  {
    if entries != [] {
      ApplyOptionsPostsPerPage(d, entries[..|entries| - 1], site, check);
    }
  }

  /** Options under keys the switch does not know can be dropped without effect. */
  lemma {:induction false} UnknownKeysChangeNothing(d: Draft, entries: seq<(string, Value)>, site: Site, check: TypeCheck)
    ensures ApplyOptions(d, entries, site, check) == ApplyOptions(d, KnownOnly(entries), site, check)
  {
    if entries != [] {
      var init := entries[..|entries| - 1];
      var last := entries[|entries| - 1];
      assert entries == init + [last];
      KnownOnlyAppend(init, last);
      UnknownKeysChangeNothing(d, init, site, check);
      var known := KnownOnly(init);
      if IsKnownKey(last.0) {
        assert KnownOnly(entries) == known + [last];
        assert (known + [last])[..|known + [last]| - 1] == known;
      } else {
        assert KnownOnly(entries) == known;
      }
    }
  }

  /** The entries whose key the switch knows, in order. */
  function KnownOnly(entries: seq<(string, Value)>): seq<(string, Value)> {
    if entries == [] then []
    else if IsKnownKey(entries[0].0) then [entries[0]] + KnownOnly(entries[1..])
    else KnownOnly(entries[1..])
  }

  lemma {:induction false} KnownOnlyAppend(init: seq<(string, Value)>, last: (string, Value))
    ensures KnownOnly(init + [last]) == KnownOnly(init) + (if IsKnownKey(last.0) then [last] else [])
  {
    if init != [] {
      assert (init + [last])[1..] == init[1..] + [last];
      KnownOnlyAppend(init[1..], last);
    }
  }

  /** The theme passed the legacy arguments: a container id string, then optionally the wrapper flag. */
  predicate IsLegacyForm(site: Site) {
    site.themeSupport.Arr? && Get(site.themeSupport.entries, "0").Str?
  }

  /** The settings array after the theme support arguments are read (options form or legacy form). */
  function ThemeDraft(site: Site, check: TypeCheck): (r: Draft)
    ensures WellFormedDraft(r)
    ensures !IsLegacyForm(site) ==> r == ApplyOptions(Defaults, ThemeOptions(site), site, check)
    ensures IsLegacyForm(site) ==>
              var args := site.themeSupport.entries;
              && r.container == StripCss(Get(args, "0").s)
              && r.wrapper == (if IsSet(args, "1") then Flag(Truthy(Get(args, "1"))) else Flag(true))
              && r.(container := Defaults.container, wrapper := Defaults.wrapper) == Defaults
  {
    if site.themeSupport.Arr? then
      var args := site.themeSupport.entries;
      var first := Get(args, "0");
      if first.Arr? then ApplyOptions(Defaults, first.entries, site, check)
      else if first.Str? then
        Defaults.(container := StripCss(first.s),
                  wrapper := if IsSet(args, "1") then Flag(Truthy(Get(args, "1"))) else Defaults.wrapper)
      else Defaults
    else Defaults
  }

  /** The widget areas a `footer_widgets` setting names. */
  function AreaIds(fw: FooterWidgets): seq<string> {
    match fw
    case Widgets(_) => []
    case Sidebar(id) => [id]
    case Sidebars(ids) => ids
  }

  /** The loop over the widget areas, stopping at the first active one. */
  function AnyActive(ids: seq<string>, active: set<string>): (r: bool)
    ensures r <==> exists i :: 0 <= i < |ids| && ids[i] in active
  {
    if ids == [] then false
    else if ids[0] in active then true
    else
      assert forall i :: 1 <= i < |ids| ==> ids[i] == ids[1..][i - 1];
      AnyActive(ids[1..], active)
  }

  /**
   * `footer_widgets` reduced to a boolean: a defined legacy function decides;
   * otherwise a flag stands, and named widget areas count when any is active.
   */
  function ResolveFooterWidgets(fw: FooterWidgets, site: Site): (r: bool)
    ensures site.legacyFooterWidgets.Some? ==> r == Truthy(site.legacyFooterWidgets.value)
    ensures site.legacyFooterWidgets.None? && fw.Widgets? ==> r == fw.present
    ensures site.legacyFooterWidgets.None? && !fw.Widgets? ==>
              (r <==> exists i :: 0 <= i < |AreaIds(fw)| && AreaIds(fw)[i] in site.activeSidebars)
  {
    match site.legacyFooterWidgets
    case Some(v) => Truthy(v)
    case None =>
      match fw
      case Widgets(present) => present
      case Sidebar(id) => assert AreaIds(fw)[0] == id; id in site.activeSidebars
      case Sidebars(ids) => assert AreaIds(fw) == ids; AnyActive(ids, site.activeSidebars)
  }

  /**
   * The second half of `get_settings`, from a draft: the footer widgets are
   * resolved; a type that is not (loosely) 'click' becomes 'click' when there
   * are footer widgets or infinite scroll is switched off; `posts_per_page`
   * falls back on 7 for scroll and on the Reading option otherwise, and a click
   * site uses the Reading option unless it is '10'; the click handle is forced
   * on unless the type is 'click'.
   */
  function Normalize(d: Draft, site: Site): (r: Settings)
    ensures WellFormedDraft(d) ==> AllCss(r.container) && WellNamed(r.wrapper) && WellNamed(r.footer)
    ensures r.requestedType == d.requestedType
    ensures r.scrollType == Str("click") || r.scrollType == d.scrollType
    ensures !LooseEqualsWord(d.scrollType, "click") ==>
              (r.scrollType == Str("click") <==> r.footerWidgets || site.enabledOption == Str(""))
    ensures r.footerWidgets == ResolveFooterWidgets(d.footerWidgets, site)
    ensures r.postsPerPage
            == if LooseEqualsWord(r.scrollType, "click") && site.postsPerPageOption != Str("10")
               then IntCast(site.postsPerPageOption)
               else ValueOr(d.postsPerPage, if r.scrollType == Str("scroll") then 7 else IntCast(site.postsPerPageOption))
    ensures r.scrollType != Str("click") ==> r.clickHandle
    ensures r.scrollType == Str("click") ==> r.clickHandle == d.clickHandle
    ensures && r.container == d.container && r.wrapper == d.wrapper && r.footer == d.footer
            && r.render == d.render && r.footerCallback == d.footerCallback
  {
    var footerWidgets := ResolveFooterWidgets(d.footerWidgets, site);
    var disabled := site.enabledOption == Str("");
    var scrollType := if !LooseEqualsWord(d.scrollType, "click") && (footerWidgets || disabled) then Str("click") else d.scrollType;
    var fallback := match d.postsPerPage
      case Some(n) => n
      case None => if scrollType == Str("scroll") then 7 else IntCast(site.postsPerPageOption);
    var postsPerPage :=
      if LooseEqualsWord(scrollType, "click") && site.postsPerPageOption != Str("10")
      then IntCast(site.postsPerPageOption) else fallback;
    var clickHandle := if scrollType != Str("click") then true else d.clickHandle;
    Settings(scrollType, d.requestedType, footerWidgets, d.container, d.wrapper, d.render,
             d.footer, d.footerCallback, postsPerPage, clickHandle)
  }

  /** In either form, the draft's type, requested type and page size are the options' reference readings. */
  lemma DraftReadsOptions(site: Site, check: TypeCheck)
    ensures var d := ThemeDraft(site, check);
      && d.scrollType == ChosenType(site, check)
      && d.requestedType == ValueOr(LastAcceptedType(ThemeOptions(site), RequestedTypeKeys, check), Str("scroll"))
      && d.postsPerPage == LastNumericPostsPerPage(ThemeOptions(site))
  {
    ApplyOptionsType(Defaults, ThemeOptions(site), site, check);
    ApplyOptionsPostsPerPage(Defaults, ThemeOptions(site), site, check);
  }

  /** The type the theme's options choose, before the site's state can force 'click'. */
  function ChosenType(site: Site, check: TypeCheck): Value {
    ValueOr(LastAcceptedType(ThemeOptions(site), TypeKeys, check), Str("scroll"))
  }

  /**
   * `get_settings` with the type option checked strictly against 'scroll' and
   * 'click' (see the finding in the README); the rest of the model uses this one.
   */
  function GetSettings(site: Site): (r: Settings)
    ensures r.scrollType == Str("scroll") || r.scrollType == Str("click")
    ensures r.requestedType == ValueOr(LastAcceptedType(ThemeOptions(site), RequestedTypeKeys, Strict), Str("scroll"))
    ensures r.scrollType == Str("click")
            <==> ChosenType(site, Strict) == Str("click") || r.footerWidgets || site.enabledOption == Str("")
    ensures r.scrollType == Str("scroll") ==> ChosenType(site, Strict) == Str("scroll")
    ensures r.scrollType != Str("click") ==> r.clickHandle
    ensures AllCss(r.container) && WellNamed(r.wrapper) && WellNamed(r.footer)
    ensures !IsLegacyForm(site) ==>
              var options := ThemeOptions(site);
              && r.container == ValueOr(LastEffect(options, "container", site, ContainerEffect), "content")
              && r.wrapper == ValueOr(LastEffect(options, "wrapper", site, WrapperEffect), Flag(true))
              && r.footer == ValueOr(LastEffect(options, "footer", site, FooterEffect), Flag(true))
              && r.render == ValueOr(LastEffect(options, "render", site, RenderEffect), Bool(false))
              && r.footerCallback == ValueOr(LastEffect(options, "footer_callback", site, FooterCallbackEffect), Bool(false))
              && r.footerWidgets
                 == ResolveFooterWidgets(ValueOr(LastEffect(options, "footer_widgets", site, FooterWidgetsEffect), Widgets(false)), site)
              && (r.scrollType == Str("click") ==> r.clickHandle == ValueOr(LastEffect(options, "click_handle", site, ClickHandleEffect), true))
    ensures IsLegacyForm(site) ==>
              var args := site.themeSupport.entries;
              && r.container == StripCss(Get(args, "0").s)
              && r.wrapper == (if IsSet(args, "1") then Flag(Truthy(Get(args, "1"))) else Flag(true))
              && r.footer == Flag(true) && r.render == Bool(false) && r.footerCallback == Bool(false)
              && r.footerWidgets == ResolveFooterWidgets(Widgets(false), site)
              && r.clickHandle
    ensures r.postsPerPage
            == if r.scrollType == Str("click") && site.postsPerPageOption != Str("10")
               then IntCast(site.postsPerPageOption)
               else match LastNumericPostsPerPage(ThemeOptions(site))
                 case Some(n) => n
                 case None => if r.scrollType == Str("scroll") then 7 else IntCast(site.postsPerPageOption)
  {
    StrictSettingsBasics(site);
    OptionsFormFields(site);
    LegacyFormFields(site);
    Normalize(ThemeDraft(site, Strict), site)
  }

  /** The type, click handle, name shapes and page size of `GetSettings`. */
  lemma StrictSettingsBasics(site: Site)
    ensures var r := Normalize(ThemeDraft(site, Strict), site);
            && (r.scrollType == Str("scroll") || r.scrollType == Str("click"))
            && r.requestedType == ValueOr(LastAcceptedType(ThemeOptions(site), RequestedTypeKeys, Strict), Str("scroll"))
            && (r.scrollType == Str("click")
                <==> ChosenType(site, Strict) == Str("click") || r.footerWidgets || site.enabledOption == Str(""))
            && (r.scrollType == Str("scroll") ==> ChosenType(site, Strict) == Str("scroll"))
            && (r.scrollType != Str("click") ==> r.clickHandle)
            && AllCss(r.container) && WellNamed(r.wrapper) && WellNamed(r.footer)
            && r.postsPerPage
               == if r.scrollType == Str("click") && site.postsPerPageOption != Str("10")
                  then IntCast(site.postsPerPageOption)
                  else match LastNumericPostsPerPage(ThemeOptions(site))
                    case Some(n) => n
                    case None => if r.scrollType == Str("scroll") then 7 else IntCast(site.postsPerPageOption)
  {
    DraftReadsOptions(site, Strict);
  }

  /** The options-array form of `GetSettings`: each field is the last effective option, or its default. */
  lemma OptionsFormFields(site: Site)
    ensures var r := Normalize(ThemeDraft(site, Strict), site);
            !IsLegacyForm(site) ==>
              var options := ThemeOptions(site);
              && r.container == ValueOr(LastEffect(options, "container", site, ContainerEffect), "content")
              && r.wrapper == ValueOr(LastEffect(options, "wrapper", site, WrapperEffect), Flag(true))
              && r.footer == ValueOr(LastEffect(options, "footer", site, FooterEffect), Flag(true))
              && r.render == ValueOr(LastEffect(options, "render", site, RenderEffect), Bool(false))
              && r.footerCallback == ValueOr(LastEffect(options, "footer_callback", site, FooterCallbackEffect), Bool(false))
              && r.footerWidgets
                 == ResolveFooterWidgets(ValueOr(LastEffect(options, "footer_widgets", site, FooterWidgetsEffect), Widgets(false)), site)
              && (r.scrollType == Str("click") ==> r.clickHandle == ValueOr(LastEffect(options, "click_handle", site, ClickHandleEffect), true))
  {
    ApplyOptionsFields(Defaults, ThemeOptions(site), site, Strict);
  }

  /** The legacy form of `GetSettings`: a container name and an optional wrapper flag, defaults elsewhere. */
  lemma LegacyFormFields(site: Site)
    ensures var r := Normalize(ThemeDraft(site, Strict), site);
            IsLegacyForm(site) ==>
              var args := site.themeSupport.entries;
              && r.container == StripCss(Get(args, "0").s)
              && r.wrapper == (if IsSet(args, "1") then Flag(Truthy(Get(args, "1"))) else Flag(true))
              && r.footer == Flag(true) && r.render == Bool(false) && r.footerCallback == Bool(false)
              && r.footerWidgets == ResolveFooterWidgets(Widgets(false), site)
              && r.clickHandle
  {
  }

  /**
   * A theme that names one widget area for its footer widgets, with no legacy
   * function defined, gets footer widgets exactly when that (sanitised) area is active.
   */
  lemma SidebarOptionAsksWidgetArea(site: Site, id: string)
    requires site.legacyFooterWidgets.None?
    requires ThemeOptions(site) == [("footer_widgets", Str(id))]
    ensures GetSettings(site).footerWidgets <==> site.sanitizeTitle(id) in site.activeSidebars
  {
    var options := ThemeOptions(site);
    assert options[..0] == [];
    assert ApplyOptions(Defaults, options, site, Strict).footerWidgets == Sidebar(site.sanitizeTitle(id));
  }

  /** `get_settings` exactly as written: `in_array` compares the type option loosely. */
  function GetSettingsAsWritten(site: Site): (r: Settings)
    ensures r.scrollType == Str("click") || r.scrollType == ChosenType(site, Loose)
    ensures r.requestedType == ValueOr(LastAcceptedType(ThemeOptions(site), RequestedTypeKeys, Loose), Str("scroll"))
    ensures r.scrollType != Str("click") ==> r.clickHandle
  {
    DraftReadsOptions(site, Loose);
    Normalize(ThemeDraft(site, Loose), site)
  }

  /** A theme that declares `array( 'type' => true )` and nothing else. */
  function BoolTypeSite(): Site {
    Site(ListOf([Arr([("type", Bool(true))])]), Str("1"), Str("10"), None, {}, {}, s => s)
  }

  /**
   * As written, the boolean `true` passes the loose `in_array` check, so the
   * stored type is neither 'scroll' nor 'click'; the strict check keeps 'scroll'.
   */
  lemma LooseTypeCheckAdmitsTrue()
    ensures GetSettingsAsWritten(BoolTypeSite()).scrollType == Bool(true)
    ensures GetSettings(BoolTypeSite()).scrollType == Str("scroll")
  {
    var site := BoolTypeSite();
    assert Get(site.themeSupport.entries, "0") == Arr([("type", Bool(true))]);
    assert ThemeOptions(site) == [("type", Bool(true))];
    assert LastAcceptedType(ThemeOptions(site), TypeKeys, Loose) == Some(Bool(true));
    assert LastAcceptedType(ThemeOptions(site), TypeKeys, Strict) == None;
  }

  /** An enabled site whose options array is the list `array( 'click' )`, without footer widgets. */
  function ListOptionsSite(): Site {
    Site(ListOf([ListOf([Str("click")])]), Str("1"), Str("10"), None, {}, {}, s => s)
  }

  /**
   * The first element of a list-shaped options array reaches `case 'type'` under
   * the integer key 0: it becomes the requested type, while the type stays 'scroll'.
   */
  lemma ListKeySetsOnlyRequestedType()
    ensures GetSettings(ListOptionsSite()).requestedType == Str("click")
    ensures GetSettings(ListOptionsSite()).scrollType == Str("scroll")
  {
    var site := ListOptionsSite();
    assert ThemeOptions(site) == [("0", Str("click"))];
    assert LastAcceptedType(ThemeOptions(site), RequestedTypeKeys, Strict) == Some(Str("click"));
    assert LastAcceptedType(ThemeOptions(site), TypeKeys, Strict) == None;
  }

  /** When every type option is a string, the loose and the strict readings agree. */
  lemma {:induction false} LooseAndStrictAgreeOnStrings(entries: seq<(string, Value)>, keys: set<string>)
    requires forall i :: 0 <= i < |entries| && entries[i].0 in keys ==> entries[i].1.Str?
    ensures LastAcceptedType(entries, keys, Loose) == LastAcceptedType(entries, keys, Strict)
  {
    if entries != [] {
      var init := entries[..|entries| - 1];
      assert forall i :: 0 <= i < |init| ==> init[i] == entries[i];
      LooseAndStrictAgreeOnStrings(init, keys);
    }
  }
}
