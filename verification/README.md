# Infinite scroll for WordPress themes: a Dafny model

This project models the core of Jetpack's infinite-scroll module, the class
`The_Neverending_Home_Page`. When a reader nears the bottom of a blog's home
page, that class loads the next batch of posts over AJAX. The model covers the
following parts:

- **Settings.** How `get_settings` turns the loosely typed arguments a theme gives
  `add_theme_support('infinite-scroll', ...)` into normalised settings. Each option
  is type-checked against its default. The footer widgets are resolved against the
  active widget areas. The scroll type is forced to `click` when the site has
  footer widgets or has infinite scroll switched off. `posts_per_page` is derived
  from the type and the site's Reading option.
- **Paging and the next query.** This covers whether a batch is the last one
  (`is_last_batch`). It also covers the date column and `WHERE` bound that continue
  a batch after the last post shown (`get_query_sort_field`, `get_last_post_date`,
  `query_time_filter`). Then come the excluded posts, the sort order and the
  whitelist of request variables the next query may take (`allowed_query_vars`,
  `get_taxonomy_vars`, `inject_query_args`).
- **The response.** The `<div>` wrapping a rendered batch. The scripts and
  stylesheets the batch needs that the page does not have yet
  (`filter_infinite_scroll_results`), with IE conditional comments rewritten into
  JavaScript tests.
- **Request helpers.** The body classes, the query string of the request URI, the
  paginated path template, and the cleaning of the Grunion contact-form redirect.

PHP values are one datatype, `Php.Value`. An array is an ordered list of
key/value pairs, and an integer key is written in decimal. The PHP 7 rules this
code relies on are written out:

- loose `==` against a word, where `0 == 'type'` holds
- truthiness, where `"0"` is empty
- `(int)` casts of decimal strings
- `is_numeric` for decimal numbers, with sign and leading white space

WordPress's globals and functions are explicit inputs:

- The site state (`get_theme_support`, `get_option`, widget areas, the
  `is_callable` oracle) is a `Settings.Site`.
- The script and style registries are `Assets.Registry` values.
- The escaping, sanitising and URL functions are function-typed parameters.
- The class hooks its own `allowed_query_vars` and `inject_query_args` to the
  `infinite_scroll_allowed_vars` and `infinite_scroll_query_args` filters
  (infinity.php:32-33), and the query applies those filters (infinity.php:1200
  and 1378). `QueryVars.ScrollQueryArgs` composes the two in that way. Every
  other `apply_filters` hook is the identity.

## Model

All source paths are under `build_blog/wp/wp-content/plugins/jetpack/modules/infinite-scroll/`; the column below repeats the full path.

| member | source | states |
|---|---|---|
| Settings.ApplyOption | build_blog/wp/wp-content/plugins/jetpack/modules/infinite-scroll/infinity.php:81-158 | One option of the theme's array keeps the draft's invariant (class-only names). An unknown key changes nothing. Each of container, wrapper, footer, footer_widgets, render, footer_callback and click_handle changes only under its own key, and then to what that key's case asks for, else it stays. Only the type keys touch the type, and only `posts_per_page` touches the page size |
| Settings.ContainerEffect | build_blog/wp/wp-content/plugins/jetpack/modules/infinite-scroll/infinity.php:99-110 | A string container is stored with non-class characters stripped, unless the result is empty in PHP's sense, in which case the setting is kept |
| Settings.WrapperEffect | build_blog/wp/wp-content/plugins/jetpack/modules/infinite-scroll/infinity.php:99-110 | A boolean wrapper is stored as that flag. A string is stored as its stripped class name, unless that is empty |
| Settings.FooterEffect | build_blog/wp/wp-content/plugins/jetpack/modules/infinite-scroll/infinity.php:121-131 | A boolean footer is stored as that flag, a string as its stripped name unless that is empty, and any other value is ignored |
| Settings.FooterWidgetsEffect | build_blog/wp/wp-content/plugins/jetpack/modules/infinite-scroll/infinity.php:89-97 | A string names one widget area, passed through `sanitize_title`. An array names one sanitised area per element. A boolean is a flag. Anything else is ignored |
| Settings.RenderEffect | build_blog/wp/wp-content/plugins/jetpack/modules/infinite-scroll/infinity.php:112-119 | A render callback is stored exactly when it is callable and not `false`, and then as given |
| Settings.FooterCallbackEffect | build_blog/wp/wp-content/plugins/jetpack/modules/infinite-scroll/infinity.php:133-139 | A footer callback is always stored: the value when it is callable, otherwise `false` |
| Settings.ClickHandleEffect | build_blog/wp/wp-content/plugins/jetpack/modules/infinite-scroll/infinity.php:147-152 | A click handle is stored exactly when it is a boolean, and then as that boolean |
| Settings.EmptyNameKeepsSetting | build_blog/wp/wp-content/plugins/jetpack/modules/infinite-scroll/infinity.php:99-131 | A container, wrapper or footer name that is empty once non-class characters are stripped (or is "0") leaves the setting unchanged |
| Settings.BooleanSwitchStored | build_blog/wp/wp-content/plugins/jetpack/modules/infinite-scroll/infinity.php:101-102 | A boolean wrapper or footer option is stored as that flag |
| Settings.ApplyOptions | build_blog/wp/wp-content/plugins/jetpack/modules/infinite-scroll/infinity.php:81-159 | The whole options loop keeps the draft's invariant |
| Settings.LastEffect | build_blog/wp/wp-content/plugins/jetpack/modules/infinite-scroll/infinity.php:81-159 | Reference reading of one setting: the effect of an option under the key whose case stores something, with no later option under the key storing anything. None means no option under the key stores anything |
| Settings.ApplyOptionsFields | build_blog/wp/wp-content/plugins/jetpack/modules/infinite-scroll/infinity.php:81-159 | After the loop, each of the seven settings other than the type and page size holds what its last storing option asked for, or keeps its earlier value when no option under its key stores anything |
| Settings.LastAcceptedType | build_blog/wp/wp-content/plugins/jetpack/modules/infinite-scroll/infinity.php:83-85 | Reference reading of the type option. The result is accepted by the check and comes from an entry under one of the keys, and no later entry under those keys is accepted. None means no such entry is accepted |
| Settings.LastNumericPostsPerPage | build_blog/wp/wp-content/plugins/jetpack/modules/infinite-scroll/infinity.php:141-143 | Reference reading of `posts_per_page`: the integer cast of a numeric entry for that key, with no later numeric entry for it. None means no entry for it is numeric |
| Settings.ApplyOptionsType | build_blog/wp/wp-content/plugins/jetpack/modules/infinite-scroll/infinity.php:81-87 | After the loop, the type is the last accepted value under 'type', and the requested type is the last accepted value under 'type' or the integer key 0; otherwise they keep the defaults |
| Settings.ApplyOptionsPostsPerPage | build_blog/wp/wp-content/plugins/jetpack/modules/infinite-scroll/infinity.php:141-145 | After the loop, `posts_per_page` is the last numeric value given, or stays unset |
| Settings.UnknownKeysChangeNothing | build_blog/wp/wp-content/plugins/jetpack/modules/infinite-scroll/infinity.php:154-157 | Dropping the entries whose key the switch does not know gives the same settings |
| Settings.ThemeDraft | build_blog/wp/wp-content/plugins/jetpack/modules/infinite-scroll/infinity.php:76-170 | With an options array, the draft is the options loop applied to the defaults. With the legacy `(container, wrapper)` form, the container is the first argument with non-class characters stripped, the wrapper is the second argument cast to a boolean when it is set, and every other setting is its default. Both forms give a well-formed draft |
| Settings.ResolveFooterWidgets | build_blog/wp/wp-content/plugins/jetpack/modules/infinite-scroll/infinity.php:178-195 | A defined `infinite_scroll_has_footer_widgets` decides by its truthiness. Otherwise a flag stands, and named widget areas give footer widgets exactly when one of them is active |
| Settings.Normalize | build_blog/wp/wp-content/plugins/jetpack/modules/infinite-scroll/infinity.php:173-243 | The footer widgets are resolved through the widget areas. The requested type and the names and callbacks pass through. The type is the draft's or 'click'. A non-click type is forced to 'click' exactly when footer widgets exist or the option is '' (disabled). `posts_per_page` is the Reading option for click (unless it is '10'), else the draft's value, else 7 for scroll. The click handle is always on for non-click types |
| Settings.DraftReadsOptions | build_blog/wp/wp-content/plugins/jetpack/modules/infinite-scroll/infinity.php:76-170 | In either form, the draft's type, requested type and page size are the reference readings of the theme's options |
| Settings.GetSettings | build_blog/wp/wp-content/plugins/jetpack/modules/infinite-scroll/infinity.php:58-260 | With the type checked strictly, the type is always 'scroll' or 'click'. It is 'click' exactly when the theme chose click, has footer widgets, or the site disabled infinite scroll. With an options array, every other setting is its last storing option's value or the default ('content', wrapper and footer on, no render or footer callbacks, footer widgets resolved from the last widget option). With the legacy form they are the stripped container, the wrapper flag and defaults, with the click handle on. `posts_per_page` is the Reading option for click (unless it is '10'), else the theme's value, else 7 for scroll |
| Settings.StrictSettingsBasics | build_blog/wp/wp-content/plugins/jetpack/modules/infinite-scroll/infinity.php:173-243 | The type, requested type, click handle, name shapes and page size that `GetSettings` promises hold of the strict draft after normalising |
| Settings.OptionsFormFields | build_blog/wp/wp-content/plugins/jetpack/modules/infinite-scroll/infinity.php:81-159 | With an options array, the normalised settings hold the last storing option's value for each of the seven other settings, or its default |
| Settings.LegacyFormFields | build_blog/wp/wp-content/plugins/jetpack/modules/infinite-scroll/infinity.php:160-169 | With the legacy form, the normalised settings hold the stripped container, the wrapper flag when given, defaults elsewhere, and the click handle stays on |
| Settings.SidebarOptionAsksWidgetArea | build_blog/wp/wp-content/plugins/jetpack/modules/infinite-scroll/infinity.php:89-91 | A theme naming one footer widget area gets footer widgets exactly when the sanitised area is active (no legacy function defined) |
| Settings.GetSettingsAsWritten | build_blog/wp/wp-content/plugins/jetpack/modules/infinite-scroll/infinity.php:83-85 | With the loose `in_array` as written, the type is 'click' or the theme's loosely accepted choice, and the requested type is the last loosely accepted value |
| Settings.LooseTypeCheckAdmitsTrue | build_blog/wp/wp-content/plugins/jetpack/modules/infinite-scroll/infinity.php:84-85 | `array('type' => true)` stores the boolean true as the type as written; the strict check keeps 'scroll' |
| Settings.ListKeySetsOnlyRequestedType | build_blog/wp/wp-content/plugins/jetpack/modules/infinite-scroll/infinity.php:82-85 | The options list `array('click')` reaches `case 'type'` under key 0: the requested type becomes 'click' but the type stays 'scroll' |
| Settings.LooseAndStrictAgreeOnStrings | build_blog/wp/wp-content/plugins/jetpack/modules/infinite-scroll/infinity.php:84 | When every type option is a string, the loose and strict checks pick the same value |
| Paging.IsLastBatch | build_blog/wp/wp-content/plugins/jetpack/modules/infinite-scroll/infinity.php:302-324 | With found posts, the batch is last exactly when the pages seen so far (at least one) hold them all; with none found, exactly when the batch is shorter than a page |
| Paging.LastBatchMonotoneInPage | build_blog/wp/wp-content/plugins/jetpack/modules/infinite-scroll/infinity.php:310-323 | Once a page is the last batch, every later page is too |
| Paging.FirstPageOfSeveralIsNotLast | build_blog/wp/wp-content/plugins/jetpack/modules/infinite-scroll/infinity.php:312-315 | On the first page, more found posts than fit on a page means the batch is not last |
| QueryClauses.SortField | build_blog/wp/wp-content/plugins/jetpack/modules/infinite-scroll/infinity.php:583-598 | The sort column is `post_modified` exactly for 'modified', and `post_date` exactly for 'date', '' or no `orderby`. An array, a closure or a non-zero integer `orderby` gives none |
| QueryClauses.LastPostDate | build_blog/wp/wp-content/plugins/jetpack/modules/infinite-scroll/infinity.php:547-573 | Null while scrolling or without posts. False when only title-matching posts were found. Otherwise, by the column `SortField` picks: the last post's modified date, its post date (false when that is empty), or false when the order is not by date |
| QueryClauses.LastPostDateFollowsSortField | build_blog/wp/wp-content/plugins/jetpack/modules/infinite-scroll/infinity.php:547-573 | The date the page reports is taken from the same column `get_query_sort_field` picks. For the modified column it is the modified date, for the date column it is the post date or false when that is empty, and there is none when the order is not by date |
| QueryClauses.IntegerHoldsNoDate | build_blog/wp/wp-content/plugins/jetpack/modules/infinite-scroll/infinity.php:622 | No integer's decimal form passes the date pattern |
| QueryClauses.TimeBound | build_blog/wp/wp-content/plugins/jetpack/modules/infinite-scroll/infinity.php:612-628 | A bound exists exactly when scrolling, the order is by a date column, and `last_post_date` is a non-empty string holding a date; it uses that column, that date, and '>' exactly for order 'ASC' |
| QueryClauses.QueryTimeFilter | build_blog/wp/wp-content/plugins/jetpack/modules/infinite-scroll/infinity.php:612-646 | The `WHERE` text is only ever extended. It is unchanged exactly when there is no bound. Otherwise it gains ` AND posts.column `, then '>' for ascending order or '<', then the quoted date |
| QueryClauses.ExcludedPosts | build_blog/wp/wp-content/plugins/jetpack/modules/infinite-scroll/infinity.php:1156-1165 | Without exclusions the sticky posts pass unchanged. With exclusions the list has no repeats and holds exactly the sticky posts and the exclusions, and a repeat-free sticky list stays its prefix |
| QueryClauses.QueryOrder | build_blog/wp/wp-content/plugins/jetpack/modules/infinite-scroll/infinity.php:1171 | For any request value, the query order is 'ASC' or 'DESC', and 'ASC' exactly when the request says 'ASC' |
| QueryClauses.FooterOrder | build_blog/wp/wp-content/plugins/jetpack/modules/infinite-scroll/infinity.php:800-805 | The order the page reports is 'ASC' exactly when the request's order upper-cases to 'ASC', otherwise 'DESC' |
| QueryClauses.FooterOrderAgreesWithQueryOrder | build_blog/wp/wp-content/plugins/jetpack/modules/infinite-scroll/infinity.php:800-805 | The page and the query agree on the order unless the request spells it in lower case |
| QueryClauses.LowerCaseAscDiffers | build_blog/wp/wp-content/plugins/jetpack/modules/infinite-scroll/infinity.php:803 | 'asc' is ascending for the page but descending for the query |
| QueryClauses.WrapperClasses | build_blog/wp/wp-content/plugins/jetpack/modules/infinite-scroll/infinity.php:1257-1259 | For stored settings, trimming never alters the classes: they are the theme's class (or 'infinite-wrap') followed by ' infinite-view-N' |
| QueryClauses.RenderBatch | build_blog/wp/wp-content/plugins/jetpack/modules/infinite-scroll/infinity.php:1256-1262 | Output empty in PHP's sense makes the batch empty. Otherwise the HTML is passed on as is, or with a wrapper it sits whole between the page's opening div and `</div>` |
| QueryVars.TaxonomyVars | build_blog/wp/wp-content/plugins/jetpack/modules/infinite-scroll/infinity.php:1345-1358 | The list ends with 'tag_id' and holds exactly 'tag_id' and the taxonomies' non-empty query variables |
| QueryVars.UnionByKey | build_blog/wp/wp-content/plugins/jetpack/modules/infinite-scroll/infinity.php:1328-1330 | Array `+=` keeps the left array as a prefix and its keys become the union. A right-hand value survives only under a key the left lacks |
| QueryVars.DropValue | build_blog/wp/wp-content/plugins/jetpack/modules/infinite-scroll/infinity.php:1332-1334 | Exactly the values other than the given name remain |
| QueryVars.UniqueValues | build_blog/wp/wp-content/plugins/jetpack/modules/infinite-scroll/infinity.php:1336 | The same set of values, each once |
| QueryVars.AllowedQueryVarsAsWritten | build_blog/wp/wp-content/plugins/jetpack/modules/infinite-scroll/infinity.php:1325-1337 | As written, the whitelist omits 'paged', repeats no name, only holds names from its sources, and keeps every filtered name |
| QueryVars.AllowedQueryVars | build_blog/wp/wp-content/plugins/jetpack/modules/infinite-scroll/infinity.php:1325-1337 | As intended, the whitelist holds exactly the names of the four sources other than 'paged', each once |
| QueryVars.UnionDropsPrivateVars | build_blog/wp/wp-content/plugins/jetpack/modules/infinite-scroll/infinity.php:1328-1330 | With public ['m'] and private ['offset'], as written the whitelist is ['m']; as intended it is ['m', 'offset', 'tag_id'] |
| QueryVars.PrivateVarsLostAsWritten | build_blog/wp/wp-content/plugins/jetpack/modules/infinite-scroll/infinity.php:1325-1337 | For all inputs with no filtered names and no more private than public variables, the as-written whitelist holds only public and taxonomy names, while the intended one keeps every private name but 'paged' |
| QueryVars.RequestedValue | build_blog/wp/wp-content/plugins/jetpack/modules/infinite-scroll/infinity.php:1385-1387 | Reference reading of the loop: a value is whitelisted, non-empty and given under the key; none means every entry for the key is rejected |
| QueryVars.CopyParametersLookup | build_blog/wp/wp-content/plugins/jetpack/modules/infinite-scroll/infinity.php:1384-1389 | After the loop, each key holds the request's last accepted value for it, else its previous value |
| QueryVars.InjectQueryArgs | build_blog/wp/wp-content/plugins/jetpack/modules/infinite-scroll/infinity.php:1367-1392 | 'suppress_filters' is false unless the request sets it; whitelisted keys take the request's value; every other argument is unchanged |
| QueryVars.ScrollQueryArgs | build_blog/wp/wp-content/plugins/jetpack/modules/infinite-scroll/infinity.php:1325-1392 | With the intended whitelist, the request can never change `paged`, and any other argument it changes (besides 'suppress_filters') is whitelisted |
| QueryVars.ScrollQueryArgsAsWritten | build_blog/wp/wp-content/plugins/jetpack/modules/infinite-scroll/infinity.php:1325-1392 | With the whitelist as written, the request still can never change `paged`, and any other argument it changes (besides 'suppress_filters') is in that whitelist |
| Assets.InitialHandles | build_blog/wp/wp-content/plugins/jetpack/modules/infinite-scroll/infinity.php:947 | The page's handles exist exactly when the request parameter is an array: one per element, each its string form passed through `sanitize_text_field` |
| Assets.Diff | build_blog/wp/wp-content/plugins/jetpack/modules/infinite-scroll/infinity.php:953 | A handle is new exactly when it is done and not among the page's handles |
| Assets.SourceUrl | build_blog/wp/wp-content/plugins/jetpack/modules/infinite-scroll/infinity.php:971-976 | A source starting with 'http' is used as it is; any other is appended to the base URL |
| Assets.SourceIsAbsolute | build_blog/wp/wp-content/plugins/jetpack/modules/infinite-scroll/infinity.php:974-976 | With an absolute base URL every source URL is absolute |
| Assets.Version | build_blog/wp/wp-content/plugins/jetpack/modules/infinite-scroll/infinity.php:978-985 | A null version gives ''. A non-empty scalar version is kept, and any other version falls back on the default version. Extra arguments follow the version and '&amp;' when the version is non-empty, and stand alone otherwise |
| Assets.ReplaceNegatedIe | build_blog/wp/wp-content/plugins/jetpack/modules/infinite-scroll/infinity.php:1084 | A conditional without '!' is left as it is |
| Assets.NoNegatedIeRemains | build_blog/wp/wp-content/plugins/jetpack/modules/infinite-scroll/infinity.php:1084 | After the rewrite no '!' followed by white space and 'IE' (in any case) remains, for every input |
| Assets.IeAfterSpaceOnlyFromInput | build_blog/wp/wp-content/plugins/jetpack/modules/infinite-scroll/infinity.php:1084 | The rewrite never puts 'IE' at the start of a string (after white space) unless it was already there |
| Assets.ConvertConditional | build_blog/wp/wp-content/plugins/jetpack/modules/infinite-scroll/infinity.php:1071-1087 | A conditional without comparison words (no 'l' or 'g') and without '!' only loses its 'IE' strings |
| Assets.ConvertPlainConditional | build_blog/wp/wp-content/plugins/jetpack/modules/infinite-scroll/infinity.php:1071-1087 | A conditional with no comparison word, no '!' and no 'IE' is passed through unchanged |
| Assets.ConvertNegation | build_blog/wp/wp-content/plugins/jetpack/modules/infinite-scroll/infinity.php:1083-1087 | '!IE', with any spaces after the '!', becomes the never-true test '1==2' |
| Assets.IeRemovalCanLeaveIe | build_blog/wp/wp-content/plugins/jetpack/modules/infinite-scroll/infinity.php:1086-1087 | One pass removing 'IE' can leave 'IE' behind ('IIEE' becomes 'IE') |
| Assets.ScriptFor | build_blog/wp/wp-content/plugins/jetpack/modules/infinite-scroll/infinity.php:960-991 | A new script's entry has its handle, is in the footer exactly when the registry lists it there, carries its extra data, and has the full source with the version query argument |
| Assets.StyleFor | build_blog/wp/wp-content/plugins/jetpack/modules/infinite-scroll/infinity.php:1040-1095 | A new stylesheet's entry has its handle, media 'all' unless its registration names one (escaped), the full source, and a converted condition exactly when its condition is non-empty |
| Assets.Scripts | build_blog/wp/wp-content/plugins/jetpack/modules/infinite-scroll/infinity.php:959-992 | Exactly the new handles that are registered are reported, each with the data from its own registration |
| Assets.Styles | build_blog/wp/wp-content/plugins/jetpack/modules/infinite-scroll/infinity.php:1038-1096 | Exactly the new handles that are registered are reported, each with the data from its own registration |
| Assets.Section | build_blog/wp/wp-content/plugins/jetpack/modules/infinite-scroll/infinity.php:996-1023 | A results key is never left empty. New handles replace it with the new items. Otherwise a non-empty prior list is kept, and with nothing new and no non-empty prior list the key is absent |
| Assets.FilterResults | build_blog/wp/wp-content/plugins/jetpack/modules/infinite-scroll/infinity.php:941-1131 | Results that are not a success are returned untouched, and the type and other fields never change. On success the scripts and styles lists are never empty and hold exactly the registered handles that are done but were not on the page. With nothing new, or no page list, a non-empty earlier list is kept and an empty or missing one is dropped |
| Assets.NoHandlesKeepsResults | build_blog/wp/wp-content/plugins/jetpack/modules/infinite-scroll/infinity.php:947-949 | Without the page's handle lists, results with non-empty lists come back unchanged |
| Request.BodyClassFor | build_blog/wp/wp-content/plugins/jetpack/modules/infinite-scroll/infinity.php:432-444 | No class exactly when infinite scroll is disabled and the type is not loosely 'click'. Otherwise 'infinite-scroll', with ' neverending' exactly when the type is loosely 'scroll' |
| Request.BodyClass | build_blog/wp/wp-content/plugins/jetpack/modules/infinite-scroll/infinity.php:432-444 | With the normalised settings the class is always present, and 'neverending' is added exactly when the type is 'scroll' |
| Request.RequestParameters | build_blog/wp/wp-content/plugins/jetpack/modules/infinite-scroll/infinity.php:884-890 | The result is '' or the URI's suffix from its first '?'; a one-line URI with a '?' always gives a result; a URI without '?' gives '' |
| Request.RequestParametersOfPathAndQuery | build_blog/wp/wp-content/plugins/jetpack/modules/infinite-scroll/infinity.php:886-889 | A path without '?' followed by a one-line query gives back '?' and the query |
| Request.LineBreakInQueryGivesNothing | build_blog/wp/wp-content/plugins/jetpack/modules/infinite-scroll/infinity.php:886-888 | A line break inside the query string defeats the pattern, so the result is '' |
| Request.PathTemplate | build_blog/wp/wp-content/plugins/jetpack/modules/infinite-scroll/infinity.php:856-863 | The template starts with '/'. A request without a trailing '/' gets the pagination base and '/%d' appended. A request ending in the base and a page number has the number replaced by '%d'. A request already ending in '/' is only slashed |
| Request.TemplateIgnoresPageNumber | build_blog/wp/wp-content/plugins/jetpack/modules/infinite-scroll/infinity.php:856-859 | Page N of a request yields the same template as the request itself |
| Request.RequestPath | build_blog/wp/wp-content/plugins/jetpack/modules/infinite-scroll/infinity.php:848-876 | False before the request is parsed, and false when the slashed template is empty. Otherwise the slashed template |
| Request.GrunionRedirectIdempotent | build_blog/wp/wp-content/plugins/jetpack/modules/infinite-scroll/infinity.php:1514-1528 | For every URL, filtering twice is filtering once, given only that removing the arguments twice is removing them once |
| Request.GrunionRedirectClearsMarker | build_blog/wp/wp-content/plugins/jetpack/modules/infinite-scroll/infinity.php:1514-1528 | If removing the scroll arguments never leaves 'infinity=scrolling' in any URL, no filtered URL carries that marker and filtering it again changes nothing |

## Left out

- Hooks, actions, output buffering, JSON output and `die`: the model covers the values these functions compute, not how WordPress delivers them.
- Running `WP_Query`, the database and `$wpdb->prepare`. The quoting of the date literal is a function parameter, and `found_posts`, the post count and `paged` are inputs.
- `has_only_title_matching_posts` is a boolean input of `QueryClauses.LastPostDate`, because its search runs a query of its own.
- `get_query_vars` and `get_excluded_posts`: the excluded posts feed `post__not_in` there (infinity.php:492), and both depend on search queries this model does not run.
- `get_request_path` when permalinks are off. It only passes `$_REQUEST` through `sanitize_text_field`, `array_filter` and `add_query_arg`, which are WordPress functions outside this model.
- Every `apply_filters` call other than the two the class hooks itself to is the identity, because a filter can return anything.
- `is_numeric` and `(int)` on strings in exponent form: PHP reads '1e1' as the number 10. The model accepts only decimal forms, so a `posts_per_page` of '1e1' keeps the default.
- PHP floats: `Php.Value` has no float. A `posts_per_page` of 7.5 passes `is_numeric` and is stored as 7 in PHP, and a type of 0.0 equals 'scroll' loosely in PHP 7; neither input can be written in the model.
- `(int)` saturation: PHP clamps a digit string beyond `PHP_INT_MAX` to that maximum; the model's integers are unbounded.
- Request.GrunionRedirect: its contract only restates the branch on 'infinity=scrolling'. What `remove_query_arg` does is a WordPress function outside this model, so the properties are stated in `Request.GrunionRedirectIdempotent` and `Request.GrunionRedirectClearsMarker` under assumptions about it.
- Assets.ConvertConditional: the comparison pass (`lte`, `lt`, `gte`, `gt` becoming `%ver` operators) and the negation pass are modelled but not stated in its contract, which covers only conditionals without 'l', 'g' or '!'. Their effects are stated in `Assets.ConvertNegation` and `Assets.NoNegatedIeRemains`.
- Assets.ReplaceNegatedIe: the result is stated as having no negated check left, and unchanged without '!', but not character by character.
- Assets.InitialHandles: an element that is itself an array is passed to `sanitize_text_field` as PHP's string form 'Array'. Recent WordPress versions return '' for an array there.
- QueryVars.InjectQueryArgs: request keys are compared as strings. PHP's loose `in_array` would also let an integer key 0 match any non-numeric whitelisted name.
- QueryVars.InjectQueryArgs: `array_merge` renumbers integer keys of the query arguments, and the model keeps them as they are. Query arguments have string keys.
- Settings.StripValue: `preg_replace` on an array value for 'container' or 'wrapper' returns an array in PHP. The model treats such a value as stripping to nothing, so the setting is kept.
- Request.PathTemplate: the pagination base is assumed to be made of class characters, so that it matches itself inside the regular expression. The request is assumed not to end in a line break, which `$` would also accept.
- Request.RequestPath: `user_trailingslashit` is a function parameter, so the result is stated in terms of it.
- QueryVars.RequestParams: a `query_args` request parameter that is not an array adds nothing, as in the source. PHP's notice for a missing parameter is not modelled.
- Assets.FilterResults: the `infinite_scroll_additional_scripts` and `infinite_scroll_additional_stylesheets` filters are the identity.
- Assets.FilterResults: `print_extra_script`, `esc_attr`, `add_query_arg` and `sanitize_text_field` are function parameters.
- Settings.GetSettings: the `render` action registration (`add_action`) is not modelled. The settings are recomputed on every call rather than cached in `self::$settings`.
- PHP 8 semantics: the model follows PHP 7, where `0 == 'type'` holds.

## Findings

| source | as written | input that shows it | evidently intended | confidence | as-written member | corrected member |
|---|---|---|---|---|---|---|
| build_blog/wp/wp-content/plugins/jetpack/modules/infinite-scroll/infinity.php:84 | `in_array($value, array('scroll', 'click'))` compares loosely, so the boolean true (and, in PHP 7, the integer 0) is accepted as the type | `add_theme_support('infinite-scroll', array('type' => true))` stores true as the type, which is neither 'scroll' nor 'click' | only the strings 'scroll' and 'click' are accepted (a strict `in_array`) | medium, not executed | Settings.GetSettingsAsWritten, Settings.LooseTypeCheckAdmitsTrue | Settings.GetSettings |
| build_blog/wp/wp-content/plugins/jetpack/modules/infinite-scroll/infinity.php:1328-1330 | `+=` on lists is a union by key, so a private or taxonomy variable whose position is already taken by an earlier list is dropped | public ['m'], private ['offset'], no taxonomies: the whitelist is ['m'] | every public, private and taxonomy variable is whitelisted, giving ['m', 'offset', 'tag_id'] | medium, not executed | QueryVars.AllowedQueryVarsAsWritten, QueryVars.UnionDropsPrivateVars | QueryVars.AllowedQueryVars (used by QueryVars.ScrollQueryArgs) |
