/**
 * How the infinite-scroll request shapes the next query: the date column that
 * pagination keys on, the `WHERE` suffix that continues after the last post
 * shown, the posts to exclude, the sort order, and the wrapper around the
 * rendered batch.
 *
 * `$wpdb->prepare` becomes a `quote` function for the date literal, `esc_attr`
 * an `escAttr` function; request values are `Value`s (null when absent).
 */
module QueryClauses {
  import opened Strings
  import opened Php
  import opened Settings
  import opened Seqs

  // ---------------------------------------------------------------------------
  // Sort field and last post date

  /** `get_query_sort_field`: the posts column a query's `orderby` sorts by, when it is a date. */
  function SortField(orderby: Value): (r: Option<string>)
    ensures r == None || r == Some("post_modified") || r == Some("post_date")
    ensures orderby.Str? ==> (r == Some("post_modified") <==> orderby.s == "modified")
    ensures orderby.Str? ==> (r == Some("post_date") <==> orderby.s == "date" || orderby.s == "")
    ensures orderby.Null? ==> r == Some("post_date")
    ensures orderby.Arr? || orderby.Closure? ==> r.None?
    ensures orderby.Int? && orderby.i != 0 ==> r.None?
  {
    if LooseEqualsWord(orderby, "modified") then Some("post_modified")
    else if LooseEqualsWord(orderby, "date") || LooseEqualsWord(orderby, "") then Some("post_date")
    else None
  }

  /** The two dates of the last post of the initial query. */
  datatype Post = Post(postDate: string, postModified: string)

  /**
   * `get_last_post_date`: null while scrolling or when the query has no posts,
   * false when only title-matching posts were found or the order is not by date,
   * otherwise the date the order is keyed on (false for an empty post date).
   */
  function LastPostDate(gotInfinity: bool, havePosts: bool, onlyTitleMatching: bool,
                        lastPost: Post, orderby: Value): (r: Value)
    ensures gotInfinity || !havePosts ==> r == Null
    ensures !gotInfinity && havePosts && onlyTitleMatching ==> r == Bool(false)
    ensures r == Null || r.Bool? || r == Str(lastPost.postDate) || r == Str(lastPost.postModified)
    ensures r.Bool? ==> r == Bool(false)
    ensures !gotInfinity && havePosts && !onlyTitleMatching ==>
              r == match SortField(orderby)
                case Some("post_modified") => Str(lastPost.postModified)
                case Some(_) => if Truthy(Str(lastPost.postDate)) then Str(lastPost.postDate) else Bool(false)
                case None => Bool(false)
  {
    if gotInfinity || !havePosts then Null
    else if onlyTitleMatching then Bool(false)
    else
      var postDate := if Truthy(Str(lastPost.postDate)) then Str(lastPost.postDate) else Bool(false);
      if LooseEqualsWord(orderby, "modified") then Str(lastPost.postModified)
      else if LooseEqualsWord(orderby, "date") || LooseEqualsWord(orderby, "") then postDate
      else Bool(false)
  }

  /** The last post date the page reports is the column `SortField` picks for the same `orderby`. */
  lemma LastPostDateFollowsSortField(gotInfinity: bool, havePosts: bool, onlyTitleMatching: bool,
                                     lastPost: Post, orderby: Value)
    ensures var d := LastPostDate(gotInfinity, havePosts, onlyTitleMatching, lastPost, orderby);
      && (SortField(orderby).None? ==> !d.Str?)
      && (d.Str? && SortField(orderby) == Some("post_modified") ==> d.s == lastPost.postModified)
      && (d.Str? && SortField(orderby) == Some("post_date") ==> d.s == lastPost.postDate)
      && ((!gotInfinity && havePosts && !onlyTitleMatching && SortField(orderby) == Some("post_modified"))
            ==> d == Str(lastPost.postModified))
      && ((!gotInfinity && havePosts && !onlyTitleMatching && SortField(orderby) == Some("post_date"))
            ==> d == if Truthy(Str(lastPost.postDate)) then Str(lastPost.postDate) else Bool(false))
  {
  }

  // ---------------------------------------------------------------------------
  // The date condition appended to WHERE

  /** `preg_match('|\d{4}\-\d{2}\-\d{2}|', $v)`: scalars are read as strings; arrays never match. */
  predicate MatchesDate(v: Value) {
    IsScalar(v) && HasDatePattern(ToStr(v))
  }

  /** The rendering of an integer has at most one '-', so it never contains a date. */
  lemma IntegerHoldsNoDate(n: int)
    ensures !HasDatePattern(IntToString(n))
  {
    var s := IntToString(n);
    forall i | 0 <= i && i + 10 <= |s|
      ensures !DateAt(s, i)
    {
      assert IsDigit(s[i + 4]);
    }
  }

  /** A condition `column op 'date'`. */
  datatype DateBound = DateBound(column: string, op: string, date: string)

  /** The decision of `query_time_filter`: which bound, if any, the next batch is limited by. */
  function TimeBound(gotInfinity: bool, orderby: Value, lastPostDate: Value, order: Value): (r: Option<DateBound>)
    ensures r.Some? <==> gotInfinity && SortField(orderby).Some? && lastPostDate.Str?
                         && Truthy(lastPostDate) && HasDatePattern(lastPostDate.s)
    ensures r.Some? ==> && r.value.column == SortField(orderby).value
                        && r.value.date == lastPostDate.s
                        && (r.value.op == ">" <==> LooseEqualsWord(order, "ASC"))
                        && (r.value.op == ">" || r.value.op == "<")
  {
    assert lastPostDate.Int? ==> !HasDatePattern(IntToString(lastPostDate.i)) by {
      if lastPostDate.Int? { IntegerHoldsNoDate(lastPostDate.i); }
    }
    if !gotInfinity then None
    else match SortField(orderby)
      case None => None
      case Some(column) =>
        if !Truthy(lastPostDate) || !MatchesDate(lastPostDate) then None
        else Some(DateBound(column, if LooseEqualsWord(order, "ASC") then ">" else "<", ToStr(lastPostDate)))
  }

  /** The SQL text of a bound: ` AND table.column op <quoted date>`. */
  function BoundClause(b: DateBound, postsTable: string, quote: string -> string): string {
    " AND " + postsTable + "." + b.column + " " + b.op + " " + quote(b.date)
  }

  /** `query_time_filter`: appends the bound to `$where`, or returns it unchanged. */
  function QueryTimeFilter(where: string, gotInfinity: bool, orderby: Value, lastPostDate: Value,
                           order: Value, postsTable: string, quote: string -> string): (r: string)
    ensures StartsWith(r, where)
    ensures r == where <==> TimeBound(gotInfinity, orderby, lastPostDate, order).None?
    ensures TimeBound(gotInfinity, orderby, lastPostDate, order).Some? ==>
              StartsWith(r[|where|..], " AND " + postsTable + "." + SortField(orderby).value + " ")
    ensures TimeBound(gotInfinity, orderby, lastPostDate, order).Some? ==>
              r == where + " AND " + postsTable + "." + SortField(orderby).value + " "
                   + (if LooseEqualsWord(order, "ASC") then ">" else "<") + " " + quote(lastPostDate.s)
  {
    match TimeBound(gotInfinity, orderby, lastPostDate, order)
    case None => where
    case Some(b) =>
      var clause := BoundClause(b, postsTable, quote);
      assert (where + clause)[|where|..] == clause;
      where + clause
  }

  // ---------------------------------------------------------------------------
  // Posts to exclude

  /** `(array) $v`: an array's values, or a scalar as a one-element list. */
  function ArrayValues(v: Value): seq<Value> {
    match v
    case Arr(entries) => seq(|entries|, i requires 0 <= i < |entries| => entries[i].1)
    case Null => []
    case Closure(_) => []
    case _ => [v]
  }

  /** `array_map('intval', (array) $v)`. */
  function IntValues(v: Value): seq<int> {
    var vs := ArrayValues(v);
    seq(|vs|, i requires 0 <= i < |vs| => IntCast(vs[i]))
  }

  /**
   * The `post__not_in` list `query` passes on: the sticky posts, plus, when any
   * exclusions exist, the query's and the request's exclusions, without repeats.
   */
  function ExcludedPosts(sticky: seq<int>, postNotIn: seq<int>, requestNotIn: Value): (r: seq<int>)
    ensures var extra := postNotIn + (if requestNotIn.Null? then [] else IntValues(requestNotIn));
      && (extra == [] ==> r == sticky)
      && (extra != [] ==> NoDuplicates(r) && forall x :: x in r <==> x in sticky || x in extra)
      && (NoDuplicates(sticky) ==> IsPrefix(r, sticky))
  {
    var extra := postNotIn + (if requestNotIn.Null? then [] else IntValues(requestNotIn));
    if extra != [] then
      UniqueExtends(sticky, extra);
      assert NoDuplicates(sticky) ==> Unique(sticky) == sticky by {
        if NoDuplicates(sticky) { UniqueOfDistinct(sticky); }
      }
      Unique(sticky + extra)
    else
      assert sticky[..|sticky|] == sticky;
      sticky
  }

  // ---------------------------------------------------------------------------
  // Sort order

  /** The shapes a request parameter can take: absent, a string, or an array. */
  predicate IsRequestValue(v: Value) {
    v.Null? || v.Str? || v.Arr?
  }

  /** `query`: the request's `order` if it loosely equals 'ASC' or 'DESC', else 'DESC'. Case matters. */
  function QueryOrder(requested: Value): (r: Value)
    ensures IsRequestValue(requested) ==> r == Str("ASC") || r == Str("DESC")
    ensures IsRequestValue(requested) ==> (r == Str("ASC") <==> requested == Str("ASC"))
  {
    if LooseEqualsWord(requested, "ASC") || LooseEqualsWord(requested, "DESC") then requested else Str("DESC")
  }

  /** `action_wp_footer_settings`: the request's `order` upper-cased first, kept if 'ASC' or 'DESC'. */
  function FooterOrder(requested: Value): (r: string)
    ensures r == "ASC" || r == "DESC"
    ensures r == "ASC" <==> IsScalar(requested) && !requested.Null? && ToUpper(ToStr(requested)) == "ASC"
  {
    if requested.Null? then "DESC"
    else if !IsScalar(requested) then "DESC"
    else
      var upper := ToUpper(ToStr(requested));
      if upper == "ASC" || upper == "DESC" then upper else "DESC"
  }

  /** An order the query accepts is the order the page reports. */
  lemma FooterOrderAgreesWithQueryOrder(requested: Value)
    requires IsRequestValue(requested)
    ensures QueryOrder(requested) == Str(FooterOrder(requested))
            || (requested.Str? && requested.s != ToUpper(requested.s))
  {
    if requested.Str? && requested.s == ToUpper(requested.s) {
      assert ToUpper(ToStr(requested)) == requested.s;
    }
  }

  /** Lower-case 'asc' is ascending for the page but descending for the query. */
  lemma LowerCaseAscDiffers()
    ensures FooterOrder(Str("asc")) == "ASC"
    ensures QueryOrder(Str("asc")) == Str("DESC")
  {
    assert ToUpper("asc") == "ASC";
  }

  // ---------------------------------------------------------------------------
  // The wrapper around a rendered batch

  /** `has_wrapper`: the wrapper setting read as a boolean. */
  predicate HasWrapper(wrapper: Switch) {
    match wrapper
    case Flag(on) => on
    case Named(name) => Truthy(Str(name))
  }

  function WrapperBase(wrapper: Switch): string {
    if wrapper.Named? then wrapper.name else "infinite-wrap"
  }

  /** The page's own class, after a separating space. */
  function PageClass(page: int): string {
    " infinite-view-" + IntToString(page)
  }

  /** The classes of the wrapper: the theme's class (or 'infinite-wrap') and the page's own class, trimmed. */
  function WrapperClasses(wrapper: Switch, page: int): (r: string)
    ensures WellNamed(wrapper) ==> r == WrapperBase(wrapper) + PageClass(page)
  {
    var untrimmed := WrapperBase(wrapper) + PageClass(page);
    assert WellNamed(wrapper) ==> Trim(untrimmed) == untrimmed by {
      if WellNamed(wrapper) {
        UntrimmedClassesAreTrimmed(wrapper, page);
      }
    }
    Trim(untrimmed)
  }

  /** The joined classes start with a class character and end with a digit, so trimming keeps them. */
  lemma UntrimmedClassesAreTrimmed(wrapper: Switch, page: int)
    requires WellNamed(wrapper)
    ensures Trim(WrapperBase(wrapper) + PageClass(page)) == WrapperBase(wrapper) + PageClass(page)
  {
    var base := WrapperBase(wrapper);
    var digits := IntToString(page);
    var mid := PageClass(page);
    assert |base| > 0 && IsCssChar(base[0]);
    assert mid[|mid| - 1] == digits[|digits| - 1];
    TrimKeepsUntrimmedJoin(base, mid);
  }

  /** Joining two strings whose outer ends are not white space gives a string trimming keeps. */
  lemma TrimKeepsUntrimmedJoin(a: string, b: string)
    requires |a| > 0 && |b| > 0 && !IsTrimChar(a[0]) && !IsTrimChar(b[|b| - 1])
    ensures Trim(a + b) == a + b
  {
    var s := a + b;
    assert s[0] == a[0] && s[|s| - 1] == b[|b| - 1];
  }

  function OpenTag(classes: string, page: int, escAttr: string -> string): string {
    "<div class=\"" + escAttr(classes) + "\" id=\"infinite-view-" + IntToString(page)
      + "\" data-page-num=\"" + IntToString(page) + "\">"
  }

  /** The outcome of rendering a batch: nothing, or its HTML. */
  datatype Rendered = EmptyBatch | Success(html: string)

  /**
   * The end of rendering in `query`: empty output makes the batch empty; with a
   * wrapper the output is enclosed in a div named for the page.
   */
  function RenderBatch(html: string, wrapper: Switch, page: int, escAttr: string -> string): (r: Rendered)
    ensures r.EmptyBatch? <==> !Truthy(Str(html))
    ensures r.Success? && !HasWrapper(wrapper) ==> r.html == html
    ensures r.Success? && HasWrapper(wrapper) ==>
              var open := OpenTag(WrapperClasses(wrapper, page), page, escAttr);
              && |r.html| == |open| + |html| + 6
              && StartsWith(r.html, open)
              && EndsWith(r.html, "</div>")
              && r.html[|open|..|open| + |html|] == html
  {
    if !Truthy(Str(html)) then EmptyBatch
    else if HasWrapper(wrapper) then
      var open := OpenTag(WrapperClasses(wrapper, page), page, escAttr);
      var h := open + html + "</div>";
      ConcatParts(open, html, "</div>");
      Success(h)
    else Success(html)
  }
}
