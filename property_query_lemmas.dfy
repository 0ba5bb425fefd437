/** What the statement of a property search promises: placeholders numbered
    $1..$n in text order, each bound to the option its clause filters on,
    row filters opened by one WHERE and then AND, a fixed clause order, and
    one parameter per truthy option plus the limit. */
module PropertyQueryLemmas {
  import opened JsValues
  import opened PropertyQuery

  // ---------------------------------------------------------------------
  // Vocabulary
  // ---------------------------------------------------------------------

  predicate HasPlaceholder(c: Clause) {
    c.RowFilter? || c.GroupByHaving? || c.OrderByLimit?
  }

  predicate IsWhere(c: Clause) {
    c.RowFilter? && c.keyword == Where
  }

  predicate IsGroupBy(c: Clause) {
    c.GroupBy? || c.GroupByHaving?
  }

  /** The `$k` placeholders of the fragments, in text order. */
  function Placeholders(cs: seq<Clause>): seq<nat> {
    if cs == [] then []
    else
      var c := cs[|cs| - 1];
      Placeholders(cs[..|cs| - 1]) + (if HasPlaceholder(c) then [c.placeholder] else [])
  }

  /** The numbers 1, 2, ..., n. */
  function Numbered(n: nat): (r: seq<nat>)
    ensures |r| == n
    ensures forall i :: 0 <= i < n ==> r[i] == i + 1
  {
    if n == 0 then [] else Numbered(n - 1) + [n]
  }

  /** The value a placeholder of clause `c` must be bound to: the option the
      clause filters on, or the limit. */
  function BoundValue(c: Clause, o: Options, limit: JsValue): JsValue
    requires HasPlaceholder(c)
  {
    match c
    case RowFilter(_, f, _) => FilterParam(f, o)
    case GroupByHaving(_) => RatingParam(o)
    case OrderByLimit(_) => EffectiveLimit(limit)
  }

  function Count(b: bool): nat {
    if b then 1 else 0
  }

  /** How many of the four options are truthy. */
  function TruthyCount(o: Options): nat {
    Count(Truthy(o.city)) + Count(Truthy(o.minimumPricePerNight))
    + Count(Truthy(o.maximumPricePerNight)) + Count(Truthy(o.minimumRating))
  }

  predicate AnyRowOption(o: Options) {
    Truthy(o.city) || Truthy(o.minimumPricePerNight) || Truthy(o.maximumPricePerNight)
  }

  /** The position of a row filter in the fixed order of the options. */
  function Rank(f: Filter): nat {
    match f
    case CityLike => 0
    case CostAbove => 1
    case CostBelow => 2
  }

  /** Two option values are interchangeable for a search: both falsy, or
      the same truthy value. */
  predicate SameEffect(a: JsValue, b: JsValue) {
    Truthy(a) == Truthy(b) && (Truthy(a) ==> a == b)
  }

  // ---------------------------------------------------------------------
  // Row filters: which ones, in which order
  // ---------------------------------------------------------------------

  /** The active row filters are exactly the truthy row options, each once,
      in the order city, minimum price, maximum price. */
  lemma ActiveFiltersExact(o: Options)
    ensures forall f :: f in ActiveFilters(o) <==> Truthy(FilterOption(f, o))
    ensures forall i, j :: 0 <= i < j < |ActiveFilters(o)| ==> Rank(ActiveFilters(o)[i]) < Rank(ActiveFilters(o)[j])
    ensures |ActiveFilters(o)| == Count(Truthy(o.city)) + Count(Truthy(o.minimumPricePerNight)) + Count(Truthy(o.maximumPricePerNight))
  {
  }

  /** The shape of every statement: the SELECT, then exactly the row
      filters, then one GROUP BY, then ORDER BY ... LIMIT. */
  lemma ClauseLayout(o: Options, limit: JsValue, cs: seq<Clause>)
    requires cs == SearchClauses(o, limit)
    ensures |cs| == |ActiveFilters(o)| + 3
    ensures cs[0] == Select
    ensures forall i :: 1 <= i <= |ActiveFilters(o)| ==> cs[i] == RowFilter(if i == 1 then Where else And, ActiveFilters(o)[i - 1], i)
    ensures cs[|cs| - 2] == if Truthy(o.minimumRating) then GroupByHaving(|ActiveFilters(o)| + 1) else GroupBy
    ensures cs[|cs| - 1] == OrderByLimit(|SearchParams(o, limit)|)
  {
    var fs := ActiveFilters(o);
    assert cs[..|fs| + 1] == FilterClauses(fs);
  }

  // ---------------------------------------------------------------------
  // Properties of the statement and its parameters
  // ---------------------------------------------------------------------

  /** Among the row filters the first opens with WHERE and every later one
      with AND; the statement has a WHERE exactly when some row option is
      truthy, and never more than one. */
  lemma WhereThenAnd(o: Options, limit: JsValue, cs: seq<Clause>)
    requires cs == SearchClauses(o, limit)
    ensures forall i :: 0 <= i < |cs| && cs[i].RowFilter? ==>
      (IsWhere(cs[i]) <==> forall j :: 0 <= j < i ==> !cs[j].RowFilter?)
    ensures forall i, j :: 0 <= i < |cs| && 0 <= j < |cs| && IsWhere(cs[i]) && IsWhere(cs[j]) ==> i == j
    ensures (exists i :: 0 <= i < |cs| && IsWhere(cs[i])) <==> AnyRowOption(o)
  {
    ClauseLayout(o, limit, cs);
    ActiveFiltersExact(o);
    var n := |ActiveFilters(o)|;
    assert forall i :: 0 <= i < |cs| ==> (cs[i].RowFilter? <==> 1 <= i <= n);
    if AnyRowOption(o) {
      assert n > 0 && IsWhere(cs[1]);
    }
  }

  /** The placeholders of the text are $1, $2, ..., $n in order, where n is
      the number of parameters: no gap, no repeat, no reordering. */
  lemma {:induction false} PlaceholdersInOrder(o: Options, limit: JsValue)
    ensures Placeholders(SearchClauses(o, limit)) == Numbered(|SearchParams(o, limit)|)
  {
    var fs := ActiveFilters(o);
    FilterPlaceholders(fs);
    var head := FilterClauses(fs);
    var group := if Truthy(o.minimumRating) then GroupByHaving(|fs| + 1) else GroupBy;
    var n := |SearchParams(o, limit)|;
    assert n == |fs| + (if Truthy(o.minimumRating) then 2 else 1);
    assert SearchClauses(o, limit) == (head + [group]) + [OrderByLimit(n)];
    PlaceholdersSnoc(head, group);
    PlaceholdersSnoc(head + [group], OrderByLimit(n));
    if Truthy(o.minimumRating) {
      assert Numbered(|fs| + 1) == Numbered(|fs|) + [|fs| + 1];
      assert Numbered(n) == Numbered(|fs| + 1) + [n];
    } else {
      assert Numbered(n) == Numbered(|fs|) + [n];
    }
  }

  lemma PlaceholdersSnoc(cs: seq<Clause>, c: Clause)
    ensures Placeholders(cs + [c]) == Placeholders(cs) + (if HasPlaceholder(c) then [c.placeholder] else [])
  {
    assert (cs + [c])[..|cs|] == cs;
  }

  lemma {:induction false} FilterPlaceholders(fs: seq<Filter>)
    ensures Placeholders(FilterClauses(fs)) == Numbered(|fs|)
    decreases |fs|
  {
    if fs != [] {
      var init := fs[..|fs| - 1];
      FilterPlaceholders(init);
      FilterClausesSnoc(init, fs[|fs| - 1]);
      assert init + [fs[|fs| - 1]] == fs;
      PlaceholdersSnoc(FilterClauses(init), RowFilter(if |fs| == 1 then Where else And, fs[|fs| - 1], |fs|));
    }
  }

  /** Placeholder $k of any fragment is bound to the k-th parameter, and
      that parameter is the value of the option the fragment filters on:
      the city wrapped in `%` wildcards, a price or rating as the text of
      its template literal, the limit as given. */
  lemma ParameterBinding(o: Options, limit: JsValue, cs: seq<Clause>, ps: seq<JsValue>)
    requires cs == SearchClauses(o, limit) && ps == SearchParams(o, limit)
    ensures forall i :: 0 <= i < |cs| && HasPlaceholder(cs[i]) ==>
      1 <= cs[i].placeholder <= |ps| && ps[cs[i].placeholder - 1] == BoundValue(cs[i], o, limit)
  {
    ClauseLayout(o, limit, cs);
    var fs := ActiveFilters(o);
    var head := FilterParams(fs, o);
    assert ps == (if Truthy(o.minimumRating) then head + [RatingParam(o)] else head) + [EffectiveLimit(limit)];
    forall i | 0 <= i < |cs| && HasPlaceholder(cs[i])
      ensures 1 <= cs[i].placeholder <= |ps| && ps[cs[i].placeholder - 1] == BoundValue(cs[i], o, limit)
    {
      if i <= |fs| {
        assert ps[i - 1] == head[i - 1];
      }
    }
  }

  /** `[v]` when the option is truthy, nothing otherwise. */
  function IfTruthy(option: JsValue, v: JsValue): seq<JsValue> {
    if Truthy(option) then [v] else []
  }

  /** The parameters follow the fixed order city, minimum price, maximum
      price, minimum rating, limit; the city is wrapped in `%` wildcards,
      the other options are the text of their template literals, and the
      limit is pushed as given. */
  lemma ParameterOrder(o: Options, limit: JsValue)
    ensures SearchParams(o, limit) ==
      IfTruthy(o.city, JsString("%" + Template(o.city) + "%"))
      + IfTruthy(o.minimumPricePerNight, JsString(Template(o.minimumPricePerNight)))
      + IfTruthy(o.maximumPricePerNight, JsString(Template(o.maximumPricePerNight)))
      + IfTruthy(o.minimumRating, JsString(Template(o.minimumRating)))
      + [EffectiveLimit(limit)]
  {
    RowParams(o);
  }

  /** The parameters of the row filters, in the order of the options. */
  lemma RowParams(o: Options)
    ensures FilterParams(ActiveFilters(o), o) ==
      IfTruthy(o.city, JsString("%" + Template(o.city) + "%"))
      + IfTruthy(o.minimumPricePerNight, JsString(Template(o.minimumPricePerNight)))
      + IfTruthy(o.maximumPricePerNight, JsString(Template(o.maximumPricePerNight)))
  {
  }

  /** The default applies only when the limit is omitted: a given limit,
      even a falsy 0 or "", is bound as it is, so the bound limit is never
      undefined. */
  lemma LimitDefault(limit: JsValue)
    ensures EffectiveLimit(limit) != Undefined
    ensures limit != Undefined ==> EffectiveLimit(limit) == limit
    ensures limit == Undefined ==> EffectiveLimit(limit) == JsNumber(10)
  {
  }

  /** One parameter per truthy option, plus one for the limit; the limit is
      the last parameter, 10 when the caller gives none. */
  lemma ParameterCount(o: Options, limit: JsValue)
    ensures |SearchParams(o, limit)| == TruthyCount(o) + 1
    ensures SearchParams(o, limit)[|SearchParams(o, limit)| - 1] == EffectiveLimit(limit)
    ensures limit == Undefined ==> SearchParams(o, limit)[|SearchParams(o, limit)| - 1] == JsNumber(10)
  {
    ActiveFiltersExact(o);
  }

  /** GROUP BY appears once, after every row filter; it carries the HAVING
      rating threshold exactly when `minimum_rating` is truthy, and the
      statement ends with ORDER BY ... LIMIT $n where n is the number of
      parameters. */
  lemma GroupingAndOrdering(o: Options, limit: JsValue, cs: seq<Clause>)
    requires cs == SearchClauses(o, limit)
    ensures forall i :: 0 <= i < |cs| && IsGroupBy(cs[i]) ==> i == |cs| - 2
    ensures IsGroupBy(cs[|cs| - 2])
    ensures forall i :: 0 <= i < |cs| && cs[i].RowFilter? ==> i < |cs| - 2
    ensures (exists i :: 0 <= i < |cs| && cs[i].GroupByHaving?) <==> Truthy(o.minimumRating)
    ensures cs[|cs| - 1] == OrderByLimit(|SearchParams(o, limit)|)
  {
    ClauseLayout(o, limit, cs);
    assert forall i :: 1 <= i < |cs| - 2 ==> cs[i].RowFilter?;
  }

  /** The text of a statement is the text of its fragments, in order:
      appending fragments appends their text. */
  lemma RenderAllAppend(cs1: seq<Clause>, cs2: seq<Clause>)
    ensures RenderAll(cs1 + cs2) == RenderAll(cs1) + RenderAll(cs2)
  {
    JoinAppend(cs1, cs2, Render);
  }

  /** `t` occurs in `s` starting at index `i`. */
  predicate OccursAt(s: string, t: string, i: nat) {
    i + |t| <= |s| && s[i..i + |t|] == t
  }

  lemma InfixOccurs(pre: string, t: string, post: string)
    ensures OccursAt(pre + t + post, t, |pre|)
  {
    assert (pre + t + post)[|pre|..|pre| + |t|] == t;
  }

  lemma PrefixOccurs(pre: string, a: string, b: string, c: string)
    ensures pre <= pre + a + b + c
  {
    assert (pre + a + b + c)[..|pre|] == pre;
  }

  /** A row filter's text opens with its keyword, a GROUP BY fragment opens
      with `GROUP BY properties.id`, and every fragment that binds a
      placeholder writes `$k` into the text. */
  lemma FragmentText(c: Clause)
    ensures IsWhere(c) ==> "WHERE " <= Render(c)
    ensures c.RowFilter? && c.keyword == And ==> "AND " <= Render(c)
    ensures IsGroupBy(c) ==> GroupByText <= Render(c)
    ensures HasPlaceholder(c) ==> exists i: nat :: OccursAt(Render(c), Dollar(c.placeholder), i)
  {
    match c
    case Select =>
    case GroupBy =>
    case RowFilter(keyword, f, k) =>
      PrefixOccurs(KeywordText(keyword), ConditionText(f), Dollar(k), RowBreak(f));
      InfixOccurs(KeywordText(keyword) + ConditionText(f), Dollar(k), RowBreak(f));
    case GroupByHaving(k) =>
      var having := "\n    HAVING avg(property_reviews.rating) >= ";
      PrefixOccurs(GroupByText, having, Dollar(k), "\n      ");
      InfixOccurs(GroupByText + having, Dollar(k), "\n      ");
    case OrderByLimit(k) =>
      var order := "\n  ORDER BY cost_per_night\n  LIMIT ";
      InfixOccurs(order, Dollar(k), ";\n  ");
      assert OccursAt(Render(c), Dollar(k), |order|);
  }

  /** The text of every search opens with the SELECT ... JOIN fragment. */
  lemma StartsWithSelect(o: Options, limit: JsValue)
    ensures SelectText <= RenderAll(SearchClauses(o, limit))
  {
    var cs := SearchClauses(o, limit);
    assert cs[0] == FilterClauses(ActiveFilters(o))[0] == Select;
    var rest := cs[1..];
    assert cs == [Select] + rest;
    RenderAllAppend([Select], rest);
    RenderAllSnoc([], Select);
    assert [] + [Select] == [Select];
    assert (SelectText + RenderAll(rest))[..|SelectText|] == SelectText;
  }

  /** The text of every search ends with ORDER BY cost_per_night and
      LIMIT $n, where n is the number of parameters. */
  lemma EndsWithOrderAndLimit(o: Options, limit: JsValue)
    ensures var cs := SearchClauses(o, limit);
      RenderAll(cs) == RenderAll(cs[..|cs| - 1])
        + ("\n  ORDER BY cost_per_night\n  LIMIT " + Dollar(|SearchParams(o, limit)|) + ";\n  ")
  {
    var cs := SearchClauses(o, limit);
    GroupingAndOrdering(o, limit, cs);
  }

  /** The city filter, when present, is the first row filter and so always
      opens with WHERE. */
  lemma CityOpensWithWhere(o: Options, limit: JsValue, cs: seq<Clause>)
    requires cs == SearchClauses(o, limit)
    ensures forall i :: 0 <= i < |cs| && cs[i].RowFilter? && cs[i].filter == CityLike ==> cs[i].keyword == Where
  {
    ClauseLayout(o, limit, cs);
    ActiveFiltersExact(o);
    var fs := ActiveFilters(o);
    forall i | 0 < i < |fs| ensures fs[i] != CityLike {
      assert Rank(fs[0]) < Rank(fs[i]);
    }
  }

  /** With no truthy option the statement is the plain SELECT grouped by
      property and ordered by price, and the only parameter is the limit. */
  lemma NoOptions(o: Options, limit: JsValue)
    requires TruthyCount(o) == 0
    ensures SearchParams(o, limit) == [EffectiveLimit(limit)]
    ensures SearchClauses(o, limit) == [Select, GroupBy, OrderByLimit(1)]
  {
    assert ActiveFilters(o) == [];
  }

  /** Only truthy options matter, and only their values: a falsy option
      (absent, 0 or empty) changes neither the text nor the parameters. */
  lemma {:induction false} OnlyTruthyOptionsMatter(o1: Options, o2: Options, limit: JsValue)
    requires SameEffect(o1.city, o2.city)
    requires SameEffect(o1.minimumPricePerNight, o2.minimumPricePerNight)
    requires SameEffect(o1.maximumPricePerNight, o2.maximumPricePerNight)
    requires SameEffect(o1.minimumRating, o2.minimumRating)
    ensures SearchClauses(o1, limit) == SearchClauses(o2, limit)
    ensures SearchParams(o1, limit) == SearchParams(o2, limit)
  {
    var fs := ActiveFilters(o1);
    assert fs == ActiveFilters(o2);
    ActiveFiltersExact(o1);
    forall i | 0 <= i < |fs| ensures FilterParam(fs[i], o1) == FilterParam(fs[i], o2) {
      assert fs[i] in fs;
    }
    assert FilterParams(fs, o1) == FilterParams(fs, o2);
  }

  /** The option values never reach the statement text: searches whose
      options agree in truthiness produce the same text, whatever the
      values and the limit. */
  lemma TextIgnoresValues(o1: Options, o2: Options, limit1: JsValue, limit2: JsValue)
    requires Truthy(o1.city) == Truthy(o2.city)
    requires Truthy(o1.minimumPricePerNight) == Truthy(o2.minimumPricePerNight)
    requires Truthy(o1.maximumPricePerNight) == Truthy(o2.maximumPricePerNight)
    requires Truthy(o1.minimumRating) == Truthy(o2.minimumRating)
    ensures RenderAll(SearchClauses(o1, limit1)) == RenderAll(SearchClauses(o2, limit2))
  {
    assert ActiveFilters(o1) == ActiveFilters(o2);
    assert SearchClauses(o1, limit1) == SearchClauses(o2, limit2);
  }
}
