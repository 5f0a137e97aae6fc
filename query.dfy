/** `USApplicationManager.query_params`: the search request sent to the Patent
    Examination Data service, built from the manager's filter and `order_by` settings. */
module QueryParams {
  import opened Outcomes
  import opened Text
  import Numbers

  /** The fields the service searches, sent unchanged as `qf`. */
  const QueryFields: string := "appEarlyPubNumber applId appLocation appType appStatus_txt appConfrNumber appCustNumber appGrpArtNumber appCls appSubCls appEntityStatus_txt patentNumber patentTitle primaryInventor firstNamedApplicant appExamName appExamPrefrdName appAttrDockNumber appPCTNumber appIntlPubNumber wipoEarlyPubNumber pctAppType firstInventorFile appClsSubCls rankAndInventorsList"

  /** The field whose presence in the search text lowers `mm` to 90%. */
  const EarlyPub: string := "appEarlyPubNumber"

  /** A value of the filter mapping. */
  datatype FilterValue =
    | NoValue                 // None
    | Scalar(text: string)    // a string
    | Whole(number: int)      // an integer, formatted with str()
    | Values(values: seq<string>) // a list or a tuple of strings

  /** `if not v: continue` skips exactly the falsy values. */
  predicate Truthy(v: FilterValue) {
    match v
    case NoValue => false
    case Scalar(t) => t != []
    case Whole(n) => n != 0
    case Values(vs) => vs != []
  }

  /** What goes between the parentheses of a clause. */
  function Body(v: FilterValue): string {
    match v
    case NoValue => "None"
    case Scalar(t) => t
    case Whole(n) => Numbers.Show(n)
    case Values(vs) => Join(vs, " OR ")
  }

  /** `inflection.camelize(s, uppercase_first_letter=False)`: the first character
      lower-cased, and in the rest every `_` dropped and the character after it (when it
      is not a newline) upper-cased. `s[0]` raises IndexError on an empty name. */
  function Camelize(s: string): (r: Result<string>)
    ensures r.Failure? <==> s == []
    ensures r.Failure? ==> r.error == IndexError
    ensures r.Success? ==> |r.value| <= |s| && r.value != [] && r.value[0] == Lower(s[0])
  {
    if s == [] then Failure(IndexError) else Success([Lower(s[0])] + Capitalize(s[1..]))
  }

  /** The regular-expression substitution of `_(.)` by the upper-cased character. */
  function Capitalize(t: string): (r: string)
    ensures |r| <= |t|
  {
    if t == [] then []
    else
      var joined := |t| >= 2 && t[0] == '_' && t[1] != '\n';
      var width := if joined then 2 else 1;
      (if joined then [Upper(t[1])] else [t[0]]) + Capitalize(t[width..])
  }

  /** One `order_by` entry: `-name` sorts descending, anything else ascending. */
  function SortTerm(key: string): (r: Result<string>) {
    if key == [] then Failure(IndexError)
    else if key[0] == '-' then
      var name :- Camelize(key[1..]);
      Success(name + " desc ")
    else
      Success(Camelize(key).value + " asc")
  }

  /** `sort_query` before stripping: the terms of the entries in order. */
  function RawSort(keys: seq<string>): Result<string> {
    if keys == [] then Success("")
    else
      var front :- RawSort(keys[..|keys| - 1]);
      var term :- SortTerm(keys[|keys| - 1]);
      Success(front + term)
  }

  /** The clause one truthy filter entry contributes. */
  function Clause(field: string, v: FilterValue): string {
    field + ":(" + Body(v) + ") "
  }

  /** `query` before stripping, with `mm_active`: the clauses of the truthy entries in
      order, and whether no truthy entry was a list. */
  function RawSearch(filter: seq<(string, FilterValue)>): Result<(string, bool)> {
    if filter == [] then Success(("", true))
    else Extend(RawSearch(filter[..|filter| - 1]), filter[|filter| - 1])
  }

  /** One pass of the filter loop: the entry's name is converted, then its clause is added
      when its value is truthy, and a list value turns `mm_active` off. */
  function Extend(acc: Result<(string, bool)>, entry: (string, FilterValue)): Result<(string, bool)> {
    var (query, mmActive) :- acc;
    var field :- Camelize(entry.0);
    if !Truthy(entry.1) then Success((query, mmActive))
    else Success((query + Clause(field, entry.1), mmActive && !entry.1.Values?))
  }

  /** The search text and flag of two parts of a filter put together: the texts
      concatenated, the flags both on, the first failure winning. */
  function Combine(a: Result<(string, bool)>, b: Result<(string, bool)>): Result<(string, bool)> {
    if a.Failure? then a
    else if b.Failure? then b
    else Success((a.value.0 + b.value.0, a.value.1 && b.value.1))
  }

  /** The request parameters. */
  function QueryParams(orderBy: seq<string>, filter: seq<(string, FilterValue)>): Result<map<string, string>> {
    var sort :- RawSort(orderBy);
    var search :- RawSearch(filter);
    Success(Request(sort, search.0, search.1))
  }

  /** The dictionary sent for a sort string and a search string: `mm` is 90% when the
      search names `appEarlyPubNumber`, and is deleted when `mm_active` is off. */
  function Request(sort: string, query: string, mmActive: bool): (r: map<string, string>)
    ensures r.Keys == {"qf", "fl", "searchText", "sort", "facet"} + (if mmActive then {"mm"} else {})
    ensures r["qf"] == QueryFields && r["fl"] == "*" && r["facet"] == "false"
    ensures r["searchText"] == Strip(query) && r["sort"] == Strip(sort)
    ensures mmActive ==> (r["mm"] == "90%" <==> Contains(query, EarlyPub))
    ensures mmActive ==> (r["mm"] == "100%" <==> !Contains(query, EarlyPub))
  {
    var mm := if Contains(query, EarlyPub) then "90%" else "100%";
    var base := map["qf" := QueryFields, "fl" := "*", "searchText" := Strip(query),
                     "sort" := Strip(sort), "facet" := "false"];
    if mmActive then base["mm" := mm] else base
  }

  /** `query_params`, step by step: the two accumulating loops, then the dictionary with
      `mm` deleted when a list value was seen. */
  method BuildQueryParams(orderBy: seq<string>, filter: seq<(string, FilterValue)>)
    returns (r: Result<map<string, string>>)
    ensures r == QueryParams(orderBy, filter)
  {
    var sortQuery :- BuildSortQuery(orderBy);
    var search :- BuildSearchQuery(filter);
    var (query, mmActive) := search;
    var mm := if Contains(query, EarlyPub) then "90%" else "100%";
    var params := map["qf" := QueryFields, "fl" := "*", "searchText" := Strip(query),
                      "sort" := Strip(sortQuery), "facet" := "false", "mm" := mm];
    if !mmActive {
      params := params - {"mm"};
      assert params == Request(sortQuery, query, mmActive);
    }
    return Success(params);
  }

  /** The `order_by` loop: `sort_query` accumulates one term per entry. */
  method BuildSortQuery(orderBy: seq<string>) returns (r: Result<string>)
    ensures r == RawSort(orderBy)
  {
    var sortQuery := "";
    var i := 0;
    while i < |orderBy|
      invariant 0 <= i <= |orderBy|
      invariant RawSort(orderBy[..i]) == Success(sortQuery)
    {
      var s := orderBy[i];
      assert orderBy[..i + 1][..i] == orderBy[..i];
      assert orderBy[..i + 1][i] == s;
      if s == [] {
        RawSortStops(orderBy, i + 1);
        return Failure(IndexError);
      }
      if s[0] == '-' {
        var name := Camelize(s[1..]);
        if name.Failure? {
          RawSortStops(orderBy, i + 1);
          return Failure(IndexError);
        }
        var term := name.value + " desc ";
        sortQuery := sortQuery + term;
      } else {
        var name := Camelize(s);
        var term := name.value + " asc";
        sortQuery := sortQuery + term;
      }
      assert RawSort(orderBy[..i + 1]) == Success(sortQuery);
      i := i + 1;
    }
    assert orderBy[..i] == orderBy;
    return Success(sortQuery);
  }

  /** The filter loop: `query` accumulates one clause per truthy value, and a list value
      clears `mm_active`. */
  method BuildSearchQuery(filter: seq<(string, FilterValue)>) returns (r: Result<(string, bool)>)
    ensures r == RawSearch(filter)
  {
    var query := "";
    var mmActive := true;
    var j := 0;
    while j < |filter|
      invariant 0 <= j <= |filter|
      invariant RawSearch(filter[..j]) == Success((query, mmActive))
    {
      var (k, v) := filter[j];
      assert filter[..j + 1][..j] == filter[..j];
      assert filter[..j + 1][j] == (k, v);
      var field := Camelize(k);
      if field.Failure? {
        RawSearchStops(filter, j + 1);
        return Failure(IndexError);
      }
      if Truthy(v) {
        var body;
        match v {
          case Values(vs) =>
            body := Join(vs, " OR ");
            mmActive := false;
          case Scalar(t) =>
            body := t;
          case Whole(n) =>
            body := Numbers.Show(n);
        }
        assert body == Body(v);
        query := query + (field.value + ":(" + body + ") ");
      }
      assert RawSearch(filter[..j + 1]) == Success((query, mmActive));
      j := j + 1;
    }
    assert filter[..j] == filter;
    return Success((query, mmActive));
  }

  /** A failure at some entry of `order_by` is the failure of the whole sort string. */
  lemma {:induction false} RawSortStops(keys: seq<string>, n: nat)
    requires 0 < n <= |keys| && RawSort(keys[..n]).Failure?
    ensures RawSort(keys) == RawSort(keys[..n])
    decreases |keys| - n
  {
    if n == |keys| {
      assert keys[..n] == keys;
    } else {
      var front := keys[..|keys| - 1];
      assert front[..n] == keys[..n];
      RawSortStops(front, n);
    }
  }

  /** A failure at some filter entry is the failure of the whole search text. */
  lemma {:induction false} RawSearchStops(filter: seq<(string, FilterValue)>, n: nat)
    requires 0 < n <= |filter| && RawSearch(filter[..n]).Failure?
    ensures RawSearch(filter) == RawSearch(filter[..n])
    decreases |filter| - n
  {
    if n == |filter| {
      assert filter[..n] == filter;
    } else {
      var front := filter[..|filter| - 1];
      assert front[..n] == filter[..n];
      RawSearchStops(front, n);
    }
  }

  /** An `order_by` entry raises exactly when it is empty or a lone `-`. */
  predicate BadSortKey(key: string) {
    key == [] || key == "-"
  }

  lemma SortTermFails(key: string)
    ensures SortTerm(key).Failure? <==> BadSortKey(key)
    ensures SortTerm(key).Failure? ==> SortTerm(key).error == IndexError
  {
  }

  /** The sort string is the terms of the entries, concatenated in order; it fails, with
      IndexError, exactly when one of the entries is bad. */
  lemma {:induction false} RawSortAppend(keys: seq<string>, more: seq<string>)
    ensures RawSort(keys + more)
         == (if RawSort(keys).Failure? then RawSort(keys)
             else if RawSort(more).Failure? then RawSort(more)
             else Success(RawSort(keys).value + RawSort(more).value))
    decreases |more|
  {
    if more == [] {
      assert keys + more == keys;
      assert RawSort(keys).Success? ==> RawSort(keys).value + "" == RawSort(keys).value;
    } else {
      var front, last := more[..|more| - 1], more[|more| - 1];
      assert (keys + more)[..|keys + more| - 1] == keys + front;
      assert (keys + more)[|keys + more| - 1] == last;
      RawSortAppend(keys, front);
      if RawSort(keys).Success? && RawSort(front).Success? && SortTerm(last).Success? {
        assert RawSort(keys).value + RawSort(front).value + SortTerm(last).value
            == RawSort(keys).value + (RawSort(front).value + SortTerm(last).value);
      }
    }
  }

  lemma {:induction false} RawSortFails(keys: seq<string>)
    ensures RawSort(keys).Failure? <==> exists i | 0 <= i < |keys| :: BadSortKey(keys[i])
    ensures RawSort(keys).Failure? ==> RawSort(keys).error == IndexError
  {
    if keys != [] {
      var front, last := keys[..|keys| - 1], keys[|keys| - 1];
      RawSortFails(front);
      SortTermFails(last);
      if exists i | 0 <= i < |front| :: BadSortKey(front[i]) {
        var i :| 0 <= i < |front| && BadSortKey(front[i]);
        assert keys[i] == front[i];
      }
      if exists i | 0 <= i < |keys| :: BadSortKey(keys[i]) {
        var i :| 0 <= i < |keys| && BadSortKey(keys[i]);
        if i < |front| {
          assert front[i] == keys[i];
        }
      }
    }
  }

  /** The search text is the clauses of the entries, concatenated in insertion order, and
      `mm_active` holds for the whole filter when it holds for both parts. */
  lemma {:induction false} RawSearchAppend(filter: seq<(string, FilterValue)>, more: seq<(string, FilterValue)>)
    ensures RawSearch(filter + more) == Combine(RawSearch(filter), RawSearch(more))
    decreases |more|
  {
    if more == [] {
      assert filter + more == filter;
      assert RawSearch(filter).Success? ==> RawSearch(filter).value.0 + "" == RawSearch(filter).value.0;
    } else {
      var front, last := more[..|more| - 1], more[|more| - 1];
      assert more == front + [last];
      assert filter + more == (filter + front) + [last];
      RawSearchAppend(filter, front);
      RawSearchStep(filter + front, last);
      RawSearchStep(front, last);
      ExtendCombine(RawSearch(filter), RawSearch(front), last);
    }
  }

  lemma RawSearchStep(filter: seq<(string, FilterValue)>, entry: (string, FilterValue))
    ensures RawSearch(filter + [entry]) == Extend(RawSearch(filter), entry)
  {
    assert (filter + [entry])[..|filter|] == filter;
  }

  /** Adding an entry after two parts is adding it to the second part. */
  lemma ExtendCombine(a: Result<(string, bool)>, b: Result<(string, bool)>, entry: (string, FilterValue))
    ensures Extend(Combine(a, b), entry) == Combine(a, Extend(b, entry))
  {
    if a.Success? && b.Success? && entry.0 != [] && Truthy(entry.1) {
      var clause := Clause(Camelize(entry.0).value, entry.1);
      assert a.value.0 + b.value.0 + clause == a.value.0 + (b.value.0 + clause);
    }
  }

  /** A single entry adds its clause when its value is truthy, and nothing otherwise. */
  lemma SearchEntry(name: string, v: FilterValue)
    requires name != []
    ensures RawSearch([(name, v)]).Success?
    ensures RawSearch([(name, v)]).value.0
         == (if Truthy(v) then Clause(Camelize(name).value, v) else "")
    ensures RawSearch([(name, v)]).value.1 <==> !(Truthy(v) && v.Values?)
  {
    assert [(name, v)][..0] == [];
  }

  /** The search fails, with IndexError, exactly when some filter name is empty: the name
      is converted before the value is looked at. */
  lemma {:induction false} RawSearchFails(filter: seq<(string, FilterValue)>)
    ensures RawSearch(filter).Failure? <==> exists i | 0 <= i < |filter| :: filter[i].0 == []
    ensures RawSearch(filter).Failure? ==> RawSearch(filter).error == IndexError
  {
    if filter != [] {
      var front, last := filter[..|filter| - 1], filter[|filter| - 1];
      RawSearchFails(front);
      if exists i | 0 <= i < |front| :: front[i].0 == [] {
        var i :| 0 <= i < |front| && front[i].0 == [];
        assert filter[i] == front[i];
      }
      if exists i | 0 <= i < |filter| :: filter[i].0 == [] {
        var i :| 0 <= i < |filter| && filter[i].0 == [];
        if i < |front| {
          assert front[i] == filter[i];
        }
      }
    }
  }

  /** A truthy list or tuple value is what turns `mm_active` off. */
  predicate HasListValue(filter: seq<(string, FilterValue)>) {
    exists i | 0 <= i < |filter| :: Truthy(filter[i].1) && filter[i].1.Values?
  }

  lemma {:induction false} MmActive(filter: seq<(string, FilterValue)>)
    requires RawSearch(filter).Success?
    ensures RawSearch(filter).value.1 <==> !HasListValue(filter)
  {
    if filter != [] {
      var front := filter[..|filter| - 1];
      MmActive(front);
      if HasListValue(front) {
        var i :| 0 <= i < |front| && Truthy(front[i].1) && front[i].1.Values?;
        assert filter[i] == front[i];
      }
      if HasListValue(filter) {
        var i :| 0 <= i < |filter| && Truthy(filter[i].1) && filter[i].1.Values?;
        if i < |front| {
          assert front[i] == filter[i];
        }
      }
    }
  }

  lemma EarlyPubNoSpace()
    ensures EarlyPub != [] && NoSpace(EarlyPub)
  {
    forall k | 0 <= k < |EarlyPub| ensures !IsSpace(EarlyPub[k]) {
      assert 'A' <= EarlyPub[k] <= 'z';
    }
  }

  /** What the request holds: the fixed `qf`, `fl` and `facet` values, the stripped
      search and sort strings, `mm` present exactly when no truthy filter value is a list,
      and `mm` is 90% exactly when the search text names `appEarlyPubNumber`. The request
      fails, with IndexError, exactly when an `order_by` entry is empty or `-`, or a filter
      name is empty. */
  lemma QueryParamsShape(orderBy: seq<string>, filter: seq<(string, FilterValue)>)
    ensures QueryParams(orderBy, filter).Failure?
        <==> ((exists i | 0 <= i < |orderBy| :: BadSortKey(orderBy[i]))
              || (exists i | 0 <= i < |filter| :: filter[i].0 == []))
    ensures QueryParams(orderBy, filter).Failure? ==> QueryParams(orderBy, filter).error == IndexError
    ensures QueryParams(orderBy, filter).Success? ==>
      var r := QueryParams(orderBy, filter).value;
      && "qf" in r && r["qf"] == QueryFields
      && "fl" in r && r["fl"] == "*"
      && "facet" in r && r["facet"] == "false"
      && "searchText" in r && r["searchText"] == Strip(RawSearch(filter).value.0)
      && "sort" in r && r["sort"] == Strip(RawSort(orderBy).value)
      && ("mm" in r <==> !HasListValue(filter))
      && ("mm" in r ==> (r["mm"] == "90%" <==> Contains(r["searchText"], EarlyPub)))
      && ("mm" in r ==> (r["mm"] == "100%" <==> !Contains(r["searchText"], EarlyPub)))
  {
    RawSortFails(orderBy);
    RawSearchFails(filter);
    if QueryParams(orderBy, filter).Success? {
      var search := RawSearch(filter).value;
      MmActive(filter);
      EarlyPubNoSpace();
      StripKeepsWord(search.0, EarlyPub);
      var r := Request(RawSort(orderBy).value, search.0, search.1);
      assert "mm" in r <==> search.1;
    }
  }

  /** The asc terms carry no separator, so two ascending keys run together:
      `["appl_id", "patent_number"]` sorts by "applId ascpatentNumber asc". */
  lemma AscendingTermsFuse()
    ensures RawSort(["appl_id", "patent_number"]) == Success("applId ascpatentNumber asc")
  {
    var first, second := "appl_id", "patent_number";
    assert ["appl_id", "patent_number"] == [first] + [second];
    RawSortAppend([first], [second]);
    RawSortSingle(first);
    RawSortSingle(second);
    CamelizeApplId();
    CamelizePatentNumber();
    FuseSpelling();
  }

  lemma FuseSpelling()
    ensures "applId" + " asc" + ("patentNumber" + " asc") == "applId ascpatentNumber asc"
  {
  }

  /** A one-entry `order_by` sorts by that entry's term. */
  lemma RawSortSingle(key: string)
    ensures RawSort([key]) == SortTerm(key)
  {
    assert [key][..0] == [];
    assert SortTerm(key).Success? ==> "" + SortTerm(key).value == SortTerm(key).value;
  }

  lemma CamelizeApplId()
    ensures Camelize("appl_id") == Success("applId")
  {
    ApplIdSpelling();
    OneUnderscore("ppl", 'i', "d");
  }

  lemma ApplIdSpelling()
    ensures "appl_id"[1..] == "ppl" + (['_', 'i'] + "d")
    ensures Lower('a') == 'a' && Upper('i') == 'I'
    ensures ['a'] + ("ppl" + (['I'] + "d")) == "applId"
  {
  }

  lemma CamelizePatentNumber()
    ensures Camelize("patent_number") == Success("patentNumber")
  {
    PatentNumberSpelling();
    OneUnderscore("atent", 'n', "umber");
  }

  lemma PatentNumberSpelling()
    ensures "patent_number"[1..] == "atent" + (['_', 'n'] + "umber")
    ensures Lower('p') == 'p' && Upper('n') == 'N'
    ensures ['p'] + ("atent" + (['N'] + "umber")) == "patentNumber"
  {
  }

  lemma OneUnderscore(head: string, c: char, w: string)
    requires NoUnderscore(head) && NoUnderscore(w) && c != '\n'
    ensures Capitalize(head + (['_', c] + w)) == head + ([Upper(c)] + w)
  {
    CapitalizeWord(head, c, w);
    CapitalizePlain(w);
  }

  /** Python's snake_case names: lower-case letters, digits and underscores, not starting
      with an underscore, each underscore followed by a lower-case letter. */
  predicate IsLowerLetter(c: char) {
    'a' <= c <= 'z'
  }

  predicate SnakeTail(t: string) {
    && (forall k :: 0 <= k < |t| ==> IsLowerLetter(t[k]) || Numbers.IsDigit(t[k]) || t[k] == '_')
    && (forall k :: 0 <= k < |t| && t[k] == '_' ==> k + 1 < |t| && IsLowerLetter(t[k + 1]))
  }

  predicate IsSnake(s: string) {
    s != [] && (IsLowerLetter(s[0]) || Numbers.IsDigit(s[0])) && SnakeTail(s[1..])
  }

  /** A left inverse of `Camelize` on snake_case names: an `_` before each capital, which
      is lower-cased. (The library's `underscore` treats runs of capitals differently;
      this function only serves to show that camelizing loses nothing.) */
  function Underscore(c: string): string {
    if c == [] then []
    else if 'A' <= c[0] <= 'Z' then ['_', Lower(c[0])] + Underscore(c[1..])
    else [c[0]] + Underscore(c[1..])
  }

  lemma {:induction false} CapitalizeUnderscore(t: string)
    requires SnakeTail(t)
    ensures Underscore(Capitalize(t)) == t
    decreases |t|
  {
    if t != [] {
      SnakeTailRest(t);
      if t[0] == '_' {
        CapitalizeUnderscore(t[2..]);
        CapitalizeJoins(t[1], t[2..]);
        UnderscoreUpper(t[1], Capitalize(t[2..]));
      } else {
        CapitalizeUnderscore(t[1..]);
        CapitalizeKeeps(t[0], t[1..]);
        UnderscoreKeeps(t[0], Capitalize(t[1..]));
      }
    }
  }

  lemma SnakeTailRest(t: string)
    requires SnakeTail(t) && t != []
    ensures t[0] == '_' ==> |t| >= 2 && IsLowerLetter(t[1]) && SnakeTail(t[2..]) && t == ['_', t[1]] + t[2..]
    ensures t[0] != '_' ==> !('A' <= t[0] <= 'Z') && SnakeTail(t[1..]) && t == [t[0]] + t[1..]
  {
    if t[0] == '_' {
      assert SnakeTail(t[2..]) by {
        forall k | 0 <= k < |t[2..]| ensures t[2..][k] == t[k + 2] {}
      }
    } else {
      assert SnakeTail(t[1..]) by {
        forall k | 0 <= k < |t[1..]| ensures t[1..][k] == t[k + 1] {}
      }
    }
  }

  lemma UnderscoreUpper(c: char, r: string)
    requires IsLowerLetter(c)
    ensures Underscore([Upper(c)] + r) == ['_', c] + Underscore(r)
  {
    assert ([Upper(c)] + r)[1..] == r;
  }

  lemma UnderscoreKeeps(x: char, r: string)
    requires !('A' <= x <= 'Z')
    ensures Underscore([x] + r) == [x] + Underscore(r)
  {
    assert ([x] + r)[1..] == r;
  }

  /** On snake_case names, camelizing loses nothing: `Underscore` is a left inverse of it,
      so distinct filter names give distinct service fields. */
  lemma CamelizeRoundTrip(s: string)
    requires IsSnake(s)
    ensures Camelize(s).Success? && Underscore(Camelize(s).value) == s
  {
    CapitalizeUnderscore(s[1..]);
    assert ([Lower(s[0])] + Capitalize(s[1..]))[1..] == Capitalize(s[1..]);
    assert s == [s[0]] + s[1..];
  }

  /** The filter name behind the 90% rule. */
  lemma CamelizeEarlyPub()
    ensures Camelize("app_early_pub_number") == Success(EarlyPub)
  {
    EarlyPubTail();
    EarlyPubSpelling();
  }

  lemma EarlyPubSpelling()
    ensures "app_early_pub_number"[1..] == "pp_early_pub_number"
    ensures [Lower('a')] + "ppEarlyPubNumber" == EarlyPub
  {
  }

  /** The example above past its first letter. */
  lemma EarlyPubTail()
    ensures Capitalize("pp_early_pub_number") == "ppEarlyPubNumber"
  {
    var parts := [('e', "arly"), ('p', "ub"), ('n', "umber")];
    EarlyPubJoined(parts);
    CapitalizeParts("pp", parts);
  }

  lemma EarlyPubJoined(parts: seq<(char, string)>)
    requires parts == [('e', "arly"), ('p', "ub"), ('n', "umber")]
    ensures NoUnderscore("pp") && PlainParts(parts)
    ensures "pp" + SnakeParts(parts) == "pp_early_pub_number"
    ensures "pp" + CamelParts(parts) == "ppEarlyPubNumber"
  {
    EarlyPubParts(parts);
  }

  lemma EarlyPubParts(parts: seq<(char, string)>)
    requires parts == [('e', "arly"), ('p', "ub"), ('n', "umber")]
    ensures PlainParts(parts)
    ensures SnakeParts(parts) == "_early_pub_number"
    ensures CamelParts(parts) == "EarlyPubNumber"
  {
    EarlyPubSnake(parts);
    EarlyPubCamel(parts);
  }

  lemma EarlyPubSnake(parts: seq<(char, string)>)
    requires parts == [('e', "arly"), ('p', "ub"), ('n', "umber")]
    ensures SnakeParts(parts) == "_early_pub_number"
  {
    var p1, p2 := parts[1..], parts[2..];
    assert p1[1..] == p2 && p2[1..] == [];
    assert SnakeParts(p2) == "_number";
    assert SnakeParts(p1) == "_pub" + SnakeParts(p2);
  }

  lemma EarlyPubCamel(parts: seq<(char, string)>)
    requires parts == [('e', "arly"), ('p', "ub"), ('n', "umber")]
    ensures CamelParts(parts) == "EarlyPubNumber"
  {
    var p1, p2 := parts[1..], parts[2..];
    assert Upper('e') == 'E' && Upper('p') == 'P' && Upper('n') == 'N';
    assert p1[1..] == p2 && p2[1..] == [];
    assert CamelParts(p2) == "Number";
    assert CamelParts(p1) == "Pub" + CamelParts(p2);
  }

  /** Words each led by an underscore and a character, as in the tail of a snake_case name. */
  function SnakeParts(parts: seq<(char, string)>): string {
    if parts == [] then [] else ['_', parts[0].0] + (parts[0].1 + SnakeParts(parts[1..]))
  }

  /** The same words with the leading character upper-cased and the underscore dropped. */
  function CamelParts(parts: seq<(char, string)>): string {
    if parts == [] then [] else [Upper(parts[0].0)] + (parts[0].1 + CamelParts(parts[1..]))
  }

  predicate NoUnderscore(a: string) {
    forall k :: 0 <= k < |a| ==> a[k] != '_'
  }

  /** Every word is led by a character other than a newline and has no underscore. */
  predicate PlainParts(parts: seq<(char, string)>) {
    forall i :: 0 <= i < |parts| ==> parts[i].0 != '\n' && NoUnderscore(parts[i].1)
  }

  /** The substitution turns snake_case words into camelCase words. */
  lemma {:induction false} CapitalizeParts(head: string, parts: seq<(char, string)>)
    requires NoUnderscore(head) && PlainParts(parts)
    ensures Capitalize(head + SnakeParts(parts)) == head + CamelParts(parts)
    decreases |parts|
  {
    if parts == [] {
      CapitalizePlain(head);
      assert head + [] == head;
    } else {
      var c, w, rest := parts[0].0, parts[0].1, parts[1..];
      PlainTail(parts);
      CapitalizeParts(w, rest);
      CapitalizeWord(head, c, w + SnakeParts(rest));
    }
  }

  lemma PlainTail(parts: seq<(char, string)>)
    requires PlainParts(parts) && parts != []
    ensures parts[0].0 != '\n' && NoUnderscore(parts[0].1) && PlainParts(parts[1..])
  {
    var rest := parts[1..];
    forall i | 0 <= i < |rest| ensures rest[i].0 != '\n' && NoUnderscore(rest[i].1) {
      assert rest[i] == parts[i + 1];
    }
  }

  /** One step of the substitution on a character other than an underscore. */
  lemma CapitalizeKeeps(x: char, t: string)
    requires x != '_'
    ensures Capitalize([x] + t) == [x] + Capitalize(t)
  {
    assert ([x] + t)[1..] == t;
  }

  /** One step of the substitution on an underscore and the character after it. */
  lemma CapitalizeJoins(c: char, t: string)
    requires c != '\n'
    ensures Capitalize(['_', c] + t) == [Upper(c)] + Capitalize(t)
  {
    assert (['_', c] + t)[2..] == t;
  }

  /** Text without an underscore is left alone by the substitution. */
  lemma {:induction false} CapitalizePlain(a: string)
    requires NoUnderscore(a)
    ensures Capitalize(a) == a
  {
    if a != [] {
      NoUnderscoreTail(a);
      CapitalizePlain(a[1..]);
      SplitHead(a, []);
      assert a + [] == a && a[1..] + [] == a[1..];
      CapitalizeKeeps(a[0], a[1..]);
    }
  }

  /** The substitution passes over a stretch without underscores, then replaces `_c`. */
  lemma {:induction false} CapitalizeWord(a: string, c: char, b: string)
    requires NoUnderscore(a)
    requires c != '\n'
    ensures Capitalize(a + (['_', c] + b)) == a + ([Upper(c)] + Capitalize(b))
  {
    if a == [] {
      assert a + (['_', c] + b) == ['_', c] + b;
      CapitalizeJoins(c, b);
    } else {
      NoUnderscoreTail(a);
      CapitalizeWord(a[1..], c, b);
      SplitHead(a, ['_', c] + b);
      CapitalizeKeeps(a[0], a[1..] + (['_', c] + b));
      SplitHead(a, [Upper(c)] + Capitalize(b));
    }
  }

  lemma NoUnderscoreTail(a: string)
    requires NoUnderscore(a) && a != []
    ensures NoUnderscore(a[1..])
  {
    forall k | 0 <= k < |a[1..]| ensures a[1..][k] != '_' {
      assert a[1..][k] == a[k + 1];
    }
  }

  lemma SplitHead<T>(a: seq<T>, x: seq<T>)
    requires a != []
    ensures a + x == [a[0]] + (a[1..] + x)
  {
    assert a == [a[0]] + a[1..];
  }
}
