# LightBnB data-access core in Dafny

LightBnB is a small property-rental web application. Its data-access layer
(`server/database.js`) has two pieces of decision logic, and this project
models both.

- **The property search** (`getAllProperties`). A search takes a sparse
  options record (`city`, `minimum_price_per_night`,
  `maximum_price_per_night`, `minimum_rating`) and a row `limit` that
  defaults to 10. From them it builds two things side by side:
  - a parameterised SQL statement, appended fragment by fragment;
  - the positional parameter list bound to that statement.

  An option counts only when it is truthy in the JavaScript sense.
  A `tracker` counter chooses whether a row filter opens with `WHERE` or
  with `AND`. Every placeholder is `$k`, where k is the parameter count
  just after the matching push.
- **Adding a property** (`addProperty`). The new property's id is the
  current key count of the in-memory `properties` dictionary plus one. The
  id is written onto the passed object, the object is stored under that id,
  and the same object is returned.

Files:

- `js_values.dfy` (module `JsValues`):
  - the JavaScript values the layer handles (`undefined`, strings, integral
    numbers);
  - truthiness;
  - the text a template literal produces.
- `property_query.dfy` (module `PropertyQuery`):
  - the statement as a list of clause records (`Clause`). `Render` gives
    each record's exact text, whitespace included. A row filter's text is
    its keyword, its condition, its placeholder and a line break.
    `RenderAll` joins the texts in order;
  - a declarative description of the clauses and parameters a search must
    produce (`SearchClauses`, `SearchParams`);
  - the builder itself, as imperative methods. `AssembleQuery` pushes
    parameters, appends clauses and keeps the `tracker` exactly as the
    source does. The two identical price blocks share one method,
    `AddPriceFilter`. Its postcondition ties the result to the declarative
    description.
- `property_query_lemmas.dfy` (module `PropertyQueryLemmas`): the
  properties the statement and its parameters satisfy.
- `property_store.dfy` (module `PropertyStore`): the property table as a
  class over a `map<int, Property>`. `Property` is a class, because
  `addProperty` writes its `id` field in place.

## Model

| member | source | states |
|---|---|---|
| PropertyQuery.AssembleQuery | LightBnB_WebApp-master/server/database.js:163-245 | Walking the four options in order, pushing each truthy one's parameter, then opening its clause with WHERE while `tracker` is 0 and with AND afterwards, yields exactly `SearchClauses` and `SearchParams`. |
| PropertyQuery.AddPriceFilter | LightBnB_WebApp-master/server/database.js:197-221 | One price block writes the next row filter. It opens with WHERE when `tracker` is 0 (and counts it) and with AND otherwise, and binds the price's template text under the new parameter count. The block keeps clauses and parameters equal to the description of the filters written so far. |
| PropertyQuery.GetAllProperties | LightBnB_WebApp-master/server/database.js:163-245 | The statement text is the rendering of `SearchClauses` and the parameter list is `SearchParams`. An omitted limit is 10. |
| PropertyQueryLemmas.ActiveFiltersExact | LightBnB_WebApp-master/server/database.js:176-221 | A row filter is present if and only if its option is truthy. Filters appear at most once each, always in the order city, minimum price, maximum price. Their number is the count of truthy row options. |
| PropertyQueryLemmas.ClauseLayout | LightBnB_WebApp-master/server/database.js:167-240 | Every statement is the SELECT, then the row filters (the i-th binding `$i`, the first opening with WHERE and the rest with AND), then one GROUP BY (with HAVING when the rating is truthy), then ORDER BY ... LIMIT `$n` where n is the parameter count. |
| PropertyQueryLemmas.WhereThenAnd | LightBnB_WebApp-master/server/database.js:173-221 | A row filter opens with WHERE if and only if no row filter precedes it. There is at most one WHERE, and there is one if and only if some row option is truthy. |
| PropertyQueryLemmas.PlaceholdersInOrder | LightBnB_WebApp-master/server/database.js:177-239 | The placeholders of the statement, in text order, are exactly $1, $2, ..., $n, where n is the number of parameters. |
| PropertyQueryLemmas.FilterPlaceholders | LightBnB_WebApp-master/server/database.js:176-221 | The row-filter part of a statement carries placeholders $1..$m for its m filters, by induction on the filters. |
| PropertyQueryLemmas.ParameterBinding | LightBnB_WebApp-master/server/database.js:176-239 | The parameter list has an entry for every placeholder `$k`. That entry is the value of the option its clause filters on: the city wrapped in `%`, a price or rating as template text, the limit as given. |
| PropertyQueryLemmas.ParameterOrder | LightBnB_WebApp-master/server/database.js:165-236 | The parameters are, in this order: the city wrapped in `%` when truthy, the minimum price, the maximum price and the minimum rating when truthy, then the limit. |
| PropertyQueryLemmas.ParameterCount | LightBnB_WebApp-master/server/database.js:163-236 | There is one parameter per truthy option plus one for the limit. The last parameter is the limit, and it is 10 when none is given. |
| PropertyQueryLemmas.GroupingAndOrdering | LightBnB_WebApp-master/server/database.js:225-240 | GROUP BY occurs exactly once, after every row filter. It carries HAVING if and only if `minimum_rating` is truthy. The statement ends with ORDER BY ... LIMIT `$n`, where n is the parameter count. |
| PropertyQueryLemmas.EndsWithOrderAndLimit | LightBnB_WebApp-master/server/database.js:236-240 | The text of every search ends with the exact ORDER BY cost_per_night / LIMIT `$n;` fragment, where n is the number of parameters. |
| PropertyQueryLemmas.StartsWithSelect | LightBnB_WebApp-master/server/database.js:167-171 | The text of every search opens with the exact SELECT ... FROM ... JOIN fragment. |
| PropertyQueryLemmas.FragmentText | LightBnB_WebApp-master/server/database.js:176-240 | A fragment's text is as follows. A row filter's text opens with its keyword, `WHERE ` or `AND `. A GROUP BY fragment opens with `GROUP BY properties.id`. Every fragment that binds placeholder k writes `$k` into its text. |
| PropertyQueryLemmas.RenderAllAppend | LightBnB_WebApp-master/server/database.js:167-240 | Appending fragments appends their text, so the statement text is the fragments' texts in the order they were added, as the `+=` steps build it. |
| PropertyQueryLemmas.CityOpensWithWhere | LightBnB_WebApp-master/server/database.js:176-181 | The city filter, when present, always opens with WHERE, because it is the first row filter. |
| PropertyQueryLemmas.RowParams | LightBnB_WebApp-master/server/database.js:176-221 | The row filters bind, in order: the city wrapped in `%` when truthy, then the minimum price and the maximum price when truthy. |
| PropertyQueryLemmas.LimitDefault | LightBnB_WebApp-master/server/database.js:163 | The default of 10 applies only when the limit is omitted. A given limit, even a falsy 0 or empty string, is bound as it is, so the bound limit is never undefined. |
| JsValues.FalsyValues | LightBnB_WebApp-master/server/database.js:176 | An `if (options.x)` test rejects exactly `undefined`, the empty string and 0. |
| JsValues.TemplateText | LightBnB_WebApp-master/server/database.js:199 | A template literal keeps a string as it is. It renders a number as text that reads back as that number. |
| JsValues.IntToStringRoundTrip | LightBnB_WebApp-master/server/database.js:199 | The decimal text of an integer, sign included, reads back as that integer. |
| JsValues.NatToStringRoundTrip | LightBnB_WebApp-master/server/database.js:199 | The decimal digits of a natural number read back as that number, by induction on the number. |
| PropertyQueryLemmas.NoOptions | LightBnB_WebApp-master/server/database.js:165-240 | With no truthy option, the parameters are just `[limit]` and the statement is SELECT, plain GROUP BY, ORDER BY ... LIMIT $1, so it has no WHERE and no HAVING. |
| PropertyQueryLemmas.OnlyTruthyOptionsMatter | LightBnB_WebApp-master/server/database.js:176-226 | Two searches whose options agree on truthiness, and on the value of each truthy option, produce the same clauses and the same parameters. A falsy option (absent, 0, empty) contributes nothing. |
| PropertyQueryLemmas.TextIgnoresValues | LightBnB_WebApp-master/server/database.js:176-232 | The statement text depends only on which options are truthy. Option values and the limit reach the parameters only, never the text. |
| PropertyStore.NextId | LightBnB_WebApp-master/server/database.js:257 | The new id is positive. When the keys are exactly 1..n, it is fresh and greater than every existing key. |
| PropertyStore.DenseInsert | LightBnB_WebApp-master/server/database.js:257-259 | Storing under the new id keeps the keys exactly 1..n+1 and grows the table by one entry. |
| PropertyStore.SparseKeysCollide | LightBnB_WebApp-master/server/database.js:257-259 | When the keys are not 1..n, the new id can already be taken. The insert then replaces an entry instead of growing the table. |
| PropertyStore.TakenIdCollides | LightBnB_WebApp-master/server/database.js:257-259 | Whenever the new id is already a key, the insert replaces that entry. The keys stay the same and the table does not grow. |
| PropertyStore.Property.constructor | LightBnB_WebApp-master/server/database.js:253 | A property object starts with the given details and no id. Its details hold no `id` key, since `id` is the separate field. |
| PropertyStore.PropertyTable.constructor | LightBnB_WebApp-master/server/database.js:1 | The table starts as the loaded fixture dictionary. |
| PropertyStore.PropertyTable.AddProperty | LightBnB_WebApp-master/server/database.js:256-261 | The call sets `property.id` to the old key count plus one and stores the object under that key. It returns the same object. Every other key keeps its object, and no other field changes. If the keys were 1..n, the new key is fresh and the table grows by one. |

## Left out

- The database connection and every `pool.query` call, including the one that ends the search (line 246). This also covers the rows the database returns and the promises wrapping results; they are I/O.
- `getUserWithEmail`, `getUserWithId`, `addUser` and `getAllReservations`. Each hands a fixed statement and a trivially built value array to the driver and has no decision logic.
- `console.log` calls and the loading of the JSON fixtures. The table constructor takes the loaded dictionary as a parameter.
- Commented-out code, including the disabled `owner_id` filter and the earlier in-memory search. None of it is live behaviour.
- Floating-point prices, ratings and limits. Numbers are integers, and a number's template text is its decimal rendering with an optional minus sign. JavaScript's formatting of fractions, and its exponent notation from 10^21 on, are not modelled.
- JavaScript `null`, booleans, objects and arrays as option values. An option is `undefined`, a string or an integral number.
- Validation of `limit` and error reporting. The code does neither: any `limit` value is pushed as given.
- PropertyQuery.GetAllProperties: the text is built from a list of clause records and rendered once at the end, not extended with `+=` after each push. The records carry the same keywords, placeholders and whitespace, and `RenderAll` appends them in the same order.
- PropertyQueryLemmas.WhereThenAnd: counts WHERE keywords among the clause records, not as substrings of the rendered text. An option value could contain the letters `WHERE`, but values never enter the text (`TextIgnoresValues`).
- PropertyStore.PropertyTable.AddProperty: keys are integers, while the fixture's JSON keys are the strings of those integers. The key count and the insert are the same either way.
- PropertyQuery.GetAllProperties: `options` is always a record. A missing (`undefined` or `null`) `options` makes the first option test throw a TypeError in the source, and the model does not have that path. Likewise, a `limit` of `null`, a boolean or an object is not modelled. The source would push it as given, since the default covers only `undefined`.
- PropertyStore.PropertyTable.AddProperty: `property` is always an object. A `null` or `undefined` property makes the `id` assignment throw in the source, and the model does not have that path.
