/**
 * Which request parameters may shape the next infinite-scroll query.
 *
 * `allowed_query_vars` builds the whitelist from WordPress's public and
 * private query variables and the taxonomies' query variables;
 * `inject_query_args` copies the whitelisted, non-empty request parameters
 * into the query arguments.
 *
 * A PHP array of names is a list of key/value pairs (integer keys written in
 * decimal). The WordPress globals `$wp->public_query_vars`,
 * `$wp->private_query_vars` and `$wp_taxonomies` are parameters; a taxonomy
 * whose `query_var` is false appears as the empty string.
 */
module QueryVars {
  import opened Strings
  import opened Php
  import opened Seqs

  type Names = seq<(string, string)>

  function Keys(a: Names): set<string> {
    set i | 0 <= i < |a| :: a[i].0
  }

  lemma KeysAppend(a: Names, e: (string, string))
    ensures Keys(a + [e]) == Keys(a) + {e.0}
  {
    var b := a + [e];
    assert b[|a|].0 == e.0;
    forall k | k in Keys(b)
      ensures k in Keys(a) + {e.0}
    {
      var i :| 0 <= i < |b| && b[i].0 == k;
      if i < |a| { assert b[i] == a[i]; }
    }
    forall k | k in Keys(a)
      ensures k in Keys(b)
    {
      var i :| 0 <= i < |a| && a[i].0 == k;
      assert b[i] == a[i];
    }
  }

  function NameValues(a: Names): (r: seq<string>)
    ensures |r| == |a|
    ensures forall i :: 0 <= i < |a| ==> r[i] == a[i].1
  {
    seq(|a|, i requires 0 <= i < |a| => a[i].1)
  }

  /** Keys of a PHP array are distinct. */
  predicate DistinctKeys(a: Names) {
    forall i, j :: 0 <= i < j < |a| ==> a[i].0 != a[j].0
  }

  /** Different integers have different decimal renderings. */
  lemma IntToStringInjective(i: int, j: int)
    requires IntToString(i) == IntToString(j)
    ensures i == j
  {
    IntToStringRoundTrip(i);
    IntToStringRoundTrip(j);
  }

  /** A PHP list: the names under the keys 0, 1, 2, ... */
  function NameList(names: seq<string>): (r: Names)
    ensures NameValues(r) == names
    ensures DistinctKeys(r)
    ensures forall i :: 0 <= i < |r| ==> r[i].0 == IntToString(i)
  {
    var r := seq(|names|, i requires 0 <= i < |names| => (IntToString(i), names[i]));
    forall i, j | 0 <= i < j < |r|
      ensures r[i].0 != r[j].0
    {
      if r[i].0 == r[j].0 {
        IntToStringInjective(i, j);
      }
    }
    r
  }

  // ---------------------------------------------------------------------------
  // get_taxonomy_vars

  /** The non-empty query variables among the taxonomies', in order. */
  function TruthyNames(queryVars: seq<string>): (r: seq<string>)
    ensures forall v :: v in r <==> v in queryVars && Truthy(Str(v))
  {
    if queryVars == [] then []
    else
      var init := queryVars[..|queryVars| - 1];
      var last := queryVars[|queryVars| - 1];
      assert queryVars == init + [last];
      TruthyNames(init) + (if Truthy(Str(last)) then [last] else [])
  }

  /** `get_taxonomy_vars`: every taxonomy's query variable that is set, then 'tag_id'. */
  function TaxonomyVars(queryVars: seq<string>): (r: seq<string>)
    ensures |r| > 0 && r[|r| - 1] == "tag_id"
    ensures forall v :: v in r <==> v == "tag_id" || (v in queryVars && Truthy(Str(v)))
  {
    TruthyNames(queryVars) + ["tag_id"]
  }

  // ---------------------------------------------------------------------------
  // allowed_query_vars

  /** Some entry of `right` whose key `left` lacks holds `v`. */
  predicate Contributes(right: Names, left: Names, v: string) {
    exists i :: 0 <= i < |right| && right[i].1 == v && right[i].0 !in Keys(left)
  }

  lemma ContributesAppend(init: Names, last: (string, string), left: Names, v: string)
    ensures Contributes(init + [last], left, v) <==> Contributes(init, left, v) || (last.1 == v && last.0 !in Keys(left))
  {
    var right := init + [last];
    if Contributes(right, left, v) {
      var i :| 0 <= i < |right| && right[i].1 == v && right[i].0 !in Keys(left);
      if i < |init| { assert init[i] == right[i]; }
    }
    if Contributes(init, left, v) {
      var i :| 0 <= i < |init| && init[i].1 == v && init[i].0 !in Keys(left);
      assert right[i] == init[i];
    }
    if last.1 == v && last.0 !in Keys(left) {
      assert right[|init|] == last;
    }
  }

  /**
   * PHP's array union `left += right`: an entry of `right` is added only when
   * its key is not already a key of `left`; entries of `left` stay as they are.
   */
  function UnionByKey(left: Names, right: Names): (r: Names)
    requires DistinctKeys(right)
    ensures IsPrefix(r, left)
    ensures Keys(r) == Keys(left) + Keys(right)
    ensures forall v :: v in NameValues(r) <==> v in NameValues(left) || Contributes(right, left, v)
  {
    if right == [] then left
    else
      var init := right[..|right| - 1];
      var last := right[|right| - 1];
      assert right == init + [last];
      var u := UnionByKey(left, init);
      assert Keys(right) == Keys(init) + {last.0};
      assert last.0 !in Keys(init);
      forall v {
        ContributesAppend(init, last, left, v);
      }
      if last.0 in Keys(u) then
        assert last.0 in Keys(left);
        u
      else
        var r := u + [last];
        KeysAppend(u, last);
        assert NameValues(r) == NameValues(u) + [last.1];
        r
  }

  /** Removes the entries whose value is `name` (`unset` of every key `array_keys` finds for it). */
  function DropValue(a: Names, name: string): (r: Names)
    ensures forall v :: v in NameValues(r) <==> v in NameValues(a) && v != name
  {
    if a == [] then []
    else
      var init := a[..|a| - 1];
      var last := a[|a| - 1];
      var d := DropValue(init, name);
      assert NameValues(a) == NameValues(init) + [last.1];
      if last.1 == name then d
      else
        assert NameValues(d + [last]) == NameValues(d) + [last.1];
        d + [last]
  }

  /** `array_unique`: keeps the first entry holding each value. */
  function UniqueValues(a: Names): (r: Names)
    ensures NoDuplicates(NameValues(r))
    ensures forall v :: v in NameValues(r) <==> v in NameValues(a)
  {
    if a == [] then []
    else
      var init := a[..|a| - 1];
      var last := a[|a| - 1];
      var u := UniqueValues(init);
      assert NameValues(a) == NameValues(init) + [last.1];
      if last.1 in NameValues(u) then u
      else
        assert NameValues(u + [last]) == NameValues(u) + [last.1];
        u + [last]
  }

  /**
   * `allowed_query_vars` as written: the three lists are joined with `+=`, so a
   * list only contributes the entries at positions beyond the longest list
   * before it; then 'paged' is removed and duplicates are dropped.
   */
  function AllowedQueryVarsAsWritten(allowed: Names, publicVars: seq<string>, privateVars: seq<string>,
                                     taxonomyQueryVars: seq<string>): (r: Names)
    ensures "paged" !in NameValues(r)
    ensures NoDuplicates(NameValues(r))
    ensures forall v :: v in NameValues(r) ==>
              v in NameValues(allowed) || v in publicVars || v in privateVars || v in TaxonomyVars(taxonomyQueryVars)
    ensures forall v :: v in NameValues(allowed) && v != "paged" ==> v in NameValues(r)
  {
    var withPublic := UnionByKey(allowed, NameList(publicVars));
    var withPrivate := UnionByKey(withPublic, NameList(privateVars));
    var all := UnionByKey(withPrivate, NameList(TaxonomyVars(taxonomyQueryVars)));
    forall v | v in NameValues(all)
      ensures v in NameValues(allowed) || v in publicVars || v in privateVars || v in TaxonomyVars(taxonomyQueryVars)
    {
      if v !in NameValues(allowed) && v !in NameValues(withPublic) {
        assert v !in NameValues(withPrivate) ==> v in NameValues(NameList(TaxonomyVars(taxonomyQueryVars)));
      }
    }
    UniqueValues(DropValue(all, "paged"))
  }

  /**
   * The whitelist as intended: every name of the filtered list and of the three
   * WordPress lists, except 'paged', each once and in order.
   */
  function AllowedQueryVars(allowed: Names, publicVars: seq<string>, privateVars: seq<string>,
                            taxonomyQueryVars: seq<string>): (r: seq<string>)
    ensures "paged" !in r
    ensures NoDuplicates(r)
    ensures forall v :: v in r <==>
              && v != "paged"
              && (v in NameValues(allowed) || v in publicVars || v in privateVars || v in TaxonomyVars(taxonomyQueryVars))
  {
    Unique(Without(NameValues(allowed) + publicVars + privateVars + TaxonomyVars(taxonomyQueryVars), "paged"))
  }

  /**
   * With an empty starting list, one public variable and one private one, the
   * union keeps only the public variable: the private variable and 'tag_id'
   * share its key 0. The intended whitelist has all three.
   */
  lemma UnionDropsPrivateVars()
    ensures NameValues(AllowedQueryVarsAsWritten([], ["m"], ["offset"], [])) == ["m"]
    ensures AllowedQueryVars([], ["m"], ["offset"], []) == ["m", "offset", "tag_id"]
  {
    AsWrittenKeepsFirstList("m", "offset");
    IntendedKeepsAll("m", "offset");
  }

  /**
   * For every input with an empty starting list: when there are no more private
   * variables than public ones, every private key is already taken, so a private
   * name survives the unions only as a public or taxonomy name. The intended
   * whitelist keeps every private name except 'paged'.
   */
  lemma PrivateVarsLostAsWritten(pub: seq<string>, priv: seq<string>, tax: seq<string>)
    requires |priv| <= |pub|
    ensures forall v :: v in NameValues(AllowedQueryVarsAsWritten([], pub, priv, tax)) ==> v in pub || v in TaxonomyVars(tax)
    ensures forall v :: v in priv && v != "paged" ==> v in AllowedQueryVars([], pub, priv, tax)
  {
    var withPublic := UnionByKey([], NameList(pub));
    var withPrivate := UnionByKey(withPublic, NameList(priv));
    var all := UnionByKey(withPrivate, NameList(TaxonomyVars(tax)));
    assert AllowedQueryVarsAsWritten([], pub, priv, tax) == UniqueValues(DropValue(all, "paged"));
    forall v | v in NameValues(withPublic)
      ensures v in pub
    {
      assert !Contributes(NameList(pub), [], v) ==> v in NameValues([]);
    }
    forall i | 0 <= i < |priv|
      ensures IntToString(i) in Keys(withPublic)
    {
      assert NameList(pub)[i].0 == IntToString(i);
    }
  }

  lemma NameListOfOne(a: string)
    ensures NameList([a]) == [("0", a)]
  {
    assert IntToString(0) == "0";
  }

  lemma UnionOfOneEntry(left: Names, e: (string, string))
    ensures UnionByKey(left, [e]) == if e.0 in Keys(left) then left else left + [e]
  {
    assert [e][..0] == [];
  }

  lemma KeptEntry(e: (string, string))
    requires e.1 != "paged"
    ensures UniqueValues(DropValue([e], "paged")) == [e]
  {
    assert [e][..0] == [];
    assert DropValue([e], "paged") == [e];
  }

  /** With an empty starting list and one-name lists, only the public name survives the unions. */
  lemma AsWrittenKeepsFirstList(pub: string, priv: string)
    requires pub != "paged"
    ensures NameValues(AllowedQueryVarsAsWritten([], [pub], [priv], [])) == [pub]
  {
    var e := ("0", pub);
    NameListOfOne(pub);
    NameListOfOne(priv);
    assert TaxonomyVars([]) == ["tag_id"];
    NameListOfOne("tag_id");
    UnionOfOneEntry([], e);
    assert Keys([e]) == {"0"};
    UnionOfOneEntry([e], ("0", priv));
    UnionOfOneEntry([e], ("0", "tag_id"));
    KeptEntry(e);
  }

  /** The intended whitelist keeps the public name, the private name and 'tag_id'. */
  lemma IntendedKeepsAll(pub: string, priv: string)
    requires pub != priv && pub != "paged" && priv != "paged" && pub != "tag_id" && priv != "tag_id"
    ensures AllowedQueryVars([], [pub], [priv], []) == [pub, priv, "tag_id"]
  {
    assert TaxonomyVars([]) == ["tag_id"];
    var joined := NameValues([]) + [pub] + [priv] + ["tag_id"];
    assert joined == [pub, priv, "tag_id"];
    WithoutAbsent(joined, "paged");
    UniqueOfDistinct(joined);
  }

  // ---------------------------------------------------------------------------
  // inject_query_args

  /** The first option that is present. */
  function Or(a: Option<Value>, b: Option<Value>): Option<Value> {
    if a.Some? then a else b
  }

  /** The body of the request loop for one parameter. */
  function CopyParameter(args: seq<(string, Value)>, allowed: seq<string>, param: (string, Value)): seq<(string, Value)> {
    if param.0 in allowed && Truthy(param.1) then Set(args, param.0, param.1) else args
  }

  /** The request loop, parameter by parameter in request order. */
  function CopyParameters(args: seq<(string, Value)>, allowed: seq<string>, params: seq<(string, Value)>): seq<(string, Value)>
    decreases |params|
  {
    if params == [] then args
    else CopyParameters(CopyParameter(args, allowed, params[0]), allowed, params[1..])
  }

  /**
   * Reference reading of the loop: the value a request gives `key`, namely the
   * last non-empty value under that key, provided the key is whitelisted.
   */
  function RequestedValue(params: seq<(string, Value)>, allowed: seq<string>, key: string): (r: Option<Value>)
    ensures r.Some? ==> key in allowed && Truthy(r.value)
    ensures r.Some? ==> exists i :: 0 <= i < |params| && params[i] == (key, r.value)
    ensures r.None? ==> forall i :: 0 <= i < |params| && params[i].0 == key ==> key !in allowed || !Truthy(params[i].1)
  {
    if params == [] then None
    else
      var later := RequestedValue(params[1..], allowed, key);
      if later.Some? then
        assert params[1..][0] == params[1];
        later
      else if params[0].0 == key && key in allowed && Truthy(params[0].1) then Some(params[0].1)
      else
        assert forall i :: 1 <= i < |params| ==> params[i] == params[1..][i - 1];
        None
  }

  /** After the loop every key holds what the request gave it, or else what it held before. */
  lemma {:induction false} CopyParametersLookup(args: seq<(string, Value)>, allowed: seq<string>,
                                                params: seq<(string, Value)>, key: string)
    ensures Lookup(CopyParameters(args, allowed, params), key)
            == Or(RequestedValue(params, allowed, key), Lookup(args, key))
    decreases |params|
  {
    if params != [] {
      var next := CopyParameter(args, allowed, params[0]);
      CopyParametersLookup(next, allowed, params[1..], key);
    }
  }

  /** `$_REQUEST['query_args']` read as a list of parameters; anything but an array gives none. */
  function RequestParams(request: Value): seq<(string, Value)> {
    if request.Arr? then request.entries else []
  }

  /**
   * `inject_query_args`: 'suppress_filters' is set to false, then each
   * whitelisted, non-empty request parameter overwrites its query argument.
   */
  function InjectQueryArgs(queryArgs: seq<(string, Value)>, allowed: seq<string>, request: Value): (r: seq<(string, Value)>)
    ensures RequestedValue(RequestParams(request), allowed, "suppress_filters").None? ==>
              Lookup(r, "suppress_filters") == Some(Bool(false))
    ensures forall key :: RequestedValue(RequestParams(request), allowed, key).Some? ==>
              Lookup(r, key) == RequestedValue(RequestParams(request), allowed, key)
    ensures forall key :: key != "suppress_filters" && RequestedValue(RequestParams(request), allowed, key).None? ==>
              Lookup(r, key) == Lookup(queryArgs, key)
  {
    var merged := Set(queryArgs, "suppress_filters", Bool(false));
    var r := CopyParameters(merged, allowed, RequestParams(request));
    forall key | true
      ensures Lookup(r, key) == Or(RequestedValue(RequestParams(request), allowed, key), Lookup(merged, key))
    {
      CopyParametersLookup(merged, allowed, RequestParams(request), key);
    }
    r
  }

  /**
   * The two filters together, with the intended whitelist: the request can
   * never change the page being fetched, and it can only set whitelisted keys.
   */
  function ScrollQueryArgs(queryArgs: seq<(string, Value)>, filtered: Names, publicVars: seq<string>,
                           privateVars: seq<string>, taxonomyQueryVars: seq<string>, request: Value): (r: seq<(string, Value)>)
    ensures Lookup(r, "paged") == Lookup(queryArgs, "paged")
    ensures forall key :: key != "suppress_filters" && Lookup(r, key) != Lookup(queryArgs, key) ==>
              key in AllowedQueryVars(filtered, publicVars, privateVars, taxonomyQueryVars)
  {
    InjectQueryArgs(queryArgs, AllowedQueryVars(filtered, publicVars, privateVars, taxonomyQueryVars), request)
  }

  /**
   * The two filters together as written: the whitelist loses names to the key
   * collisions, but it still never holds 'paged', so the page being fetched is
   * safe from the request all the same.
   */
  function ScrollQueryArgsAsWritten(queryArgs: seq<(string, Value)>, filtered: Names, publicVars: seq<string>,
                                    privateVars: seq<string>, taxonomyQueryVars: seq<string>, request: Value): (r: seq<(string, Value)>)
    ensures Lookup(r, "paged") == Lookup(queryArgs, "paged")
    ensures forall key :: key != "suppress_filters" && Lookup(r, key) != Lookup(queryArgs, key) ==>
              key in NameValues(AllowedQueryVarsAsWritten(filtered, publicVars, privateVars, taxonomyQueryVars))
  {
    InjectQueryArgs(queryArgs, NameValues(AllowedQueryVarsAsWritten(filtered, publicVars, privateVars, taxonomyQueryVars)), request)
  }
}
