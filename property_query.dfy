/** The property search of the data-access layer: from a sparse set of
    search options and a row limit it assembles a parameterised SQL statement
    and the positional parameter list bound to it. Running the statement is
    the database's business and is not modelled. */
module PropertyQuery {
  import opened JsValues

  /** The search options; a field counts only when it is truthy. */
  datatype Options = Options(
    city: JsValue,
    minimumPricePerNight: JsValue,
    maximumPricePerNight: JsValue,
    minimumRating: JsValue)

  /** The keyword a row filter opens with. */
  datatype Keyword = Where | And

  /** The three row-level (pre-aggregation) filters. */
  datatype Filter = CityLike | CostAbove | CostBelow

  /** One fragment of the statement text; `placeholder` is the k of `$k`. */
  datatype Clause =
    | Select
    | RowFilter(keyword: Keyword, filter: Filter, placeholder: nat)
    | GroupBy
    | GroupByHaving(placeholder: nat)
    | OrderByLimit(placeholder: nat)

  // ---------------------------------------------------------------------
  // Rendering clauses to the statement text
  // ---------------------------------------------------------------------

  function Dollar(k: nat): string {
    "$" + NatToString(k)
  }

  const SelectText :=
    "\n  SELECT properties.*, avg(property_reviews.rating) as average_rating\n  FROM properties\n  JOIN property_reviews ON properties.id = property_id\n  "

  const GroupByText := "GROUP BY properties.id"

  function KeywordText(keyword: Keyword): string {
    match keyword
    case Where => "WHERE "
    case And => "AND "
  }

  function ConditionText(f: Filter): string {
    match f
    case CityLike => "city LIKE "
    case CostAbove => "cost_per_night > "
    case CostBelow => "cost_per_night < "
  }

  /** The line break after a row filter: the city filter's is indented
      less than the price filters'. */
  function RowBreak(f: Filter): string {
    if f == CityLike then "\n    " else "\n      "
  }

  /** The exact text each fragment contributes, whitespace included. A row
      filter is its keyword, its condition, its placeholder and a line
      break; the city filter is always the first row filter, so a search
      never writes it with AND (`CityOpensWithWhere`). */
  function Render(c: Clause): string {
    match c
    case Select => SelectText
    case RowFilter(keyword, f, k) => KeywordText(keyword) + ConditionText(f) + Dollar(k) + RowBreak(f)
    case GroupBy => GroupByText
    case GroupByHaving(k) =>
      GroupByText + "\n    HAVING avg(property_reviews.rating) >= " + Dollar(k) + "\n      "
    case OrderByLimit(k) => "\n  ORDER BY cost_per_night\n  LIMIT " + Dollar(k) + ";\n  "
  }

  /** The texts `f(x)` of the elements of `xs`, joined in order. */
  function Join<T>(xs: seq<T>, f: T -> string): string {
    if xs == [] then "" else Join(xs[..|xs| - 1], f) + f(xs[|xs| - 1])
  }

  lemma JoinSnoc<T>(xs: seq<T>, x: T, f: T -> string)
    ensures Join(xs + [x], f) == Join(xs, f) + f(x)
  {
    var ys := xs + [x];
    assert ys[..|ys| - 1] == xs;
  }

  lemma AppendAssoc(a: string, b: string, c: string)
    ensures (a + b) + c == a + (b + c)
  {
  }

  /** Joining two lists joins their texts. */
  lemma {:induction false} JoinAppend<T>(xs: seq<T>, ys: seq<T>, f: T -> string)
    ensures Join(xs + ys, f) == Join(xs, f) + Join(ys, f)
    decreases |ys|
  {
    if ys == [] {
      assert xs + ys == xs;
    } else {
      var init, last := ys[..|ys| - 1], ys[|ys| - 1];
      assert xs + ys == (xs + init) + [last];
      assert ys == init + [last];
      JoinSnoc(xs + init, last, f);
      JoinSnoc(init, last, f);
      JoinAppend(xs, init, f);
      AppendAssoc(Join(xs, f), Join(init, f), f(last));
    }
  }

  /** The statement text: the fragments' texts in order. */
  function RenderAll(cs: seq<Clause>): string {
    Join(cs, Render)
  }

  lemma RenderAllSnoc(cs: seq<Clause>, c: Clause)
    ensures RenderAll(cs + [c]) == RenderAll(cs) + Render(c)
  {
    JoinSnoc(cs, c, Render);
  }

  // ---------------------------------------------------------------------
  // The statement the search must produce, stated declaratively
  // ---------------------------------------------------------------------

  /** The argument a search is called with when `limit` is left out. */
  const DefaultLimit := 10

  /** The JS default parameter `limit = 10`. */
  function EffectiveLimit(limit: JsValue): JsValue {
    if limit == Undefined then JsNumber(DefaultLimit) else limit
  }

  /** The option behind a row filter. */
  function FilterOption(f: Filter, o: Options): JsValue {
    match f
    case CityLike => o.city
    case CostAbove => o.minimumPricePerNight
    case CostBelow => o.maximumPricePerNight
  }

  /** The parameter a row filter binds: the city wrapped in `%` wildcards,
      a price as the text of its template literal. */
  function FilterParam(f: Filter, o: Options): JsValue {
    if f == CityLike then JsString("%" + Template(o.city) + "%")
    else JsString(Template(FilterOption(f, o)))
  }

  function RatingParam(o: Options): JsValue {
    JsString(Template(o.minimumRating))
  }

  /** The row filters whose options are truthy, in the fixed order
      city, minimum price, maximum price. */
  function ActiveFilters(o: Options): seq<Filter> {
    var none: seq<Filter> := [];
    var withCity := if Truthy(o.city) then none + [CityLike] else none;
    var withMin := if Truthy(o.minimumPricePerNight) then withCity + [CostAbove] else withCity;
    if Truthy(o.maximumPricePerNight) then withMin + [CostBelow] else withMin
  }

  /** The base SELECT followed by the row filters `fs`: row filter i
      opens with WHERE when it is the first one and with AND otherwise, and
      binds placeholder i + 1. */
  function FilterClauses(fs: seq<Filter>): (cs: seq<Clause>)
    ensures |cs| == |fs| + 1
  {
    [Select] + seq(|fs|, i requires 0 <= i < |fs| => RowFilter(if i == 0 then Where else And, fs[i], i + 1))
  }

  /** The parameters bound by the row filters `fs`, in the same order. */
  function FilterParams(fs: seq<Filter>, o: Options): (ps: seq<JsValue>)
    ensures |ps| == |fs|
  {
    seq(|fs|, i requires 0 <= i < |fs| => FilterParam(fs[i], o))
  }

  /** The parameter list a search must bind. */
  function SearchParams(o: Options, limit: JsValue): seq<JsValue> {
    var ps := FilterParams(ActiveFilters(o), o);
    (if Truthy(o.minimumRating) then ps + [RatingParam(o)] else ps) + [EffectiveLimit(limit)]
  }

  /** The fragments the statement text of a search is made of. */
  function SearchClauses(o: Options, limit: JsValue): seq<Clause> {
    var fs := ActiveFilters(o);
    (if Truthy(o.minimumRating) then FilterClauses(fs) + [GroupByHaving(|fs| + 1)]
     else FilterClauses(fs) + [GroupBy])
    + [OrderByLimit(|SearchParams(o, limit)|)]
  }

  lemma FilterClausesSnoc(fs: seq<Filter>, f: Filter)
    ensures FilterClauses(fs + [f]) == FilterClauses(fs) + [RowFilter(if |fs| == 0 then Where else And, f, |fs| + 1)]
  {
  }

  lemma FilterParamsSnoc(fs: seq<Filter>, f: Filter, o: Options)
    ensures FilterParams(fs + [f], o) == FilterParams(fs, o) + [FilterParam(f, o)]
  {
  }

  // ---------------------------------------------------------------------
  // The builder itself, step by step as the source does it
  // ---------------------------------------------------------------------

  /** The statement of a property search, as the fragments its text is
      made of, and its parameter list: the body of the search up to the
      point where both are handed to the database. `tracker` counts the
      WHERE keywords written so far. */
  method AssembleQuery(options: Options, limit: JsValue)
    returns (clauses: seq<Clause>, queryParams: seq<JsValue>)
    ensures clauses == SearchClauses(options, limit)
    ensures queryParams == SearchParams(options, limit)
  {
    queryParams := [];
    clauses := [Select];
    var tracker := 0;
    ghost var fs: seq<Filter> := [];  // the row filters written so far

    if Truthy(options.city) {
      RowFilterStep(fs, CityLike, options, clauses, queryParams, Where);
      queryParams := queryParams + [JsString("%" + Template(options.city) + "%")];
      clauses := clauses + [RowFilter(Where, CityLike, |queryParams|)];
      tracker := tracker + 1;
      fs := fs + [CityLike];
    }
    assert clauses == FilterClauses(fs) && queryParams == FilterParams(fs, options);

    if Truthy(options.minimumPricePerNight) {
      tracker, clauses, queryParams := AddPriceFilter(CostAbove, options, tracker, clauses, queryParams, fs);
      fs := fs + [CostAbove];
    }

    if Truthy(options.maximumPricePerNight) {
      tracker, clauses, queryParams := AddPriceFilter(CostBelow, options, tracker, clauses, queryParams, fs);
      fs := fs + [CostBelow];
    }
    assert fs == ActiveFilters(options);
    ghost var rowClauses := clauses;

    if Truthy(options.minimumRating) {
      queryParams := queryParams + [JsString(Template(options.minimumRating))];
      clauses := clauses + [GroupByHaving(|queryParams|)];
      assert clauses == rowClauses + [GroupByHaving(|fs| + 1)];
    } else {
      clauses := clauses + [GroupBy];
    }

    assert clauses == if Truthy(options.minimumRating) then FilterClauses(fs) + [GroupByHaving(|fs| + 1)]
                      else FilterClauses(fs) + [GroupBy];
    queryParams := queryParams + [EffectiveLimit(limit)];
    assert queryParams == SearchParams(options, limit);
    clauses := clauses + [OrderByLimit(|queryParams|)];
  }

  /** One price filter block of the search: push the price as template
      text, then write the condition with WHERE if no WHERE was written
      yet (counting it in `tracker`) and with AND otherwise. */
  method AddPriceFilter(f: Filter, options: Options, tracker: nat, clauses: seq<Clause>, queryParams: seq<JsValue>,
                        ghost fs: seq<Filter>)
    returns (tracker': nat, clauses': seq<Clause>, queryParams': seq<JsValue>)
    requires f != CityLike
    requires clauses == FilterClauses(fs) && queryParams == FilterParams(fs, options)
    requires (tracker == 0) == (|fs| == 0)
    ensures clauses' == FilterClauses(fs + [f]) && queryParams' == FilterParams(fs + [f], options)
    ensures tracker' != 0
  {
    RowFilterStep(fs, f, options, clauses, queryParams, if tracker == 0 then Where else And);
    queryParams' := queryParams + [JsString(Template(FilterOption(f, options)))];
    if tracker == 0 {
      clauses' := clauses + [RowFilter(Where, f, |queryParams'|)];
      tracker' := tracker + 1;
    } else {
      clauses' := clauses + [RowFilter(And, f, |queryParams'|)];
      tracker' := tracker;
    }
  }

  /** One row filter written: the parameter pushed, then the fragment whose
      placeholder is the new parameter count. */
  lemma RowFilterStep(fs: seq<Filter>, f: Filter, o: Options, clauses: seq<Clause>, params: seq<JsValue>, keyword: Keyword)
    requires clauses == FilterClauses(fs) && params == FilterParams(fs, o)
    requires keyword == if |fs| == 0 then Where else And
    ensures clauses + [RowFilter(keyword, f, |params| + 1)] == FilterClauses(fs + [f])
    ensures params + [FilterParam(f, o)] == FilterParams(fs + [f], o)
  {
    FilterClausesSnoc(fs, f);
    FilterParamsSnoc(fs, f, o);
  }

  /** Builds the statement text and the parameter list of a property
      search (`limit` defaults to 10). Nothing is sent to the database. */
  method GetAllProperties(options: Options, limit: JsValue := Undefined)
    returns (queryString: string, queryParams: seq<JsValue>)
    ensures queryString == RenderAll(SearchClauses(options, limit))
    ensures queryParams == SearchParams(options, limit)
  {
    var clauses;
    clauses, queryParams := AssembleQuery(options, limit);
    queryString := RenderAll(clauses);
  }
}
