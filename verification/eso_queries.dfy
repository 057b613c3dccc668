/**
 The query builders of the ESO client: the instrument and collection
 queries and the main raw-data query. Each call is modelled up to the TAP
 request it issues: the ADQL text and the caching choice passed along.
 The value quoting used for column filters is not part of this model and
 is a parameter.
 */
module EsoQueries {
  import opened Wrappers
  import opened PyText
  import opened PyDict
  import opened EsoUtils

  /** The table queried and the column the primary filter applies to. */
  datatype QueryOnField = QueryOnField(tableName: string, columnName: string)

  const QueryOnInstrument: QueryOnField := QueryOnField("dbo.raw", "instrument")
  const QueryOnCollection: QueryOnField := QueryOnField("ivoa.ObsCore", "obs_collection")

  /** The table `query_main` searches. */
  const MainTable: string := "dbo.raw"

  /** The radius of the search circle around `coord1`, `coord2`, as the
      float `0.1775` is rendered. */
  const ConeSize: string := "0.1775"

  /** The instrument or collection names: one comma-separated string or a
      list. */
  datatype Primary = PrimaryText(text: string) | PrimaryList(names: seq<string>)

  /** Without a primary filter the name mapping fails with a `TypeError`. */
  datatype QueryError = PrimaryMissing

  /** A TAP request as issued: the query text, the caching choice handed to
      `query_tap_service` (`None` leaves it to the global setting), and
      whether the caller returns the result (the help listing does not). */
  datatype TapRequest = TapRequest(query: string, cache: Option<bool>, returnsResult: bool)

  /** Text that ends in something other than whitespace. */
  predicate EndsTidy(s: string) {
    |s| > 0 && !IsSpace(s[|s| - 1])
  }

  /** A name in single quotes: taking them off gives the name back. */
  function Quoted(s: string): (r: string)
    ensures |r| == |s| + 2 && r[0] == '\'' && r[|r| - 1] == '\'' && r[1..|r| - 1] == s
  {
    "'" + s + "'"
  }

  /** Each name stripped and put in single quotes. */
  function QuoteAll(names: seq<string>): (r: seq<string>)
    ensures |r| == |names|
    ensures forall k :: 0 <= k < |names| ==> r[k] == Quoted(Strip(names[k]))
  {
    seq(|names|, k requires 0 <= k < |names| => Quoted(Strip(names[k])))
  }

  /** The names of the primary filter; a string is split at commas. */
  function PrimaryNames(primary: Primary): seq<string> {
    match primary
    case PrimaryText(t) => SplitStrAsListOfStr(t)
    case PrimaryList(ns) => ns
  }

  /** `<column> in ('v1', 'v2', …)`. */
  function PrimaryConstraint(column: string, primary: Primary): (c: string)
    ensures StartsWith(c, column + " in (") && c[|c| - 1] == ')'
  {
    column + " in (" + Join(", ", QuoteAll(PrimaryNames(primary))) + ")"
  }

  /** The search circle around the two coordinates. */
  function CoordConstraint(c1: Scalar, c2: Scalar): (c: string)
    ensures |c| > 0 && c[|c| - 1] == '1'
  {
    "intersects(circle('ICRS', " + Show(c1) + ", " + Show(c2) + ", " + ConeSize + "), s_region)=1"
  }

  /** `key = value`: the key and ` = `, then the value. */
  function Equality(key: string, value: string): (r: string)
    ensures |r| == |key| + 3 + |value|
    ensures StartsWith(r, key + " = ") && r[|key| + 3..] == value
  {
    key + " = " + value
  }

  /** `k = sanitize(v)` for every filter, in dictionary order. */
  function EqualityConstraints(filters: Dict<Scalar>, sanitize: Scalar -> string): (r: seq<string>)
    ensures |r| == |filters|
    ensures forall k :: 0 <= k < |filters| ==> r[k] == Equality(filters[k].0, sanitize(filters[k].1))
  {
    seq(|filters|, k requires 0 <= k < |filters| => Equality(filters[k].0, sanitize(filters[k].1)))
  }

  /** The keys `_query_instrument_or_collection` takes out of the equality
      filters: `box` always, the two coordinates when both are given. */
  predicate Removed(k: string, coords: bool) {
    k == "box" || (coords && (k == "coord1" || k == "coord2"))
  }

  /** The filters of an instrument or collection query: keyword arguments
      overridden by `column_filters`, without `box`, and with the two
      coordinates taken out as a pair when both are present. */
  function FieldFilters(kwargs: Dict<Scalar>, columnFilters: Dict<Scalar>): (r: (Dict<Scalar>, Option<(Scalar, Scalar)>))
    ensures var merged := Merge(kwargs, columnFilters);
      && (r.1.Some? <==> "coord1" in Keys(merged) && "coord2" in Keys(merged))
      && (r.1.Some? ==> Get(merged, "coord1") == Some(r.1.value.0) && Get(merged, "coord2") == Some(r.1.value.1))
      && forall k :: Get(r.0, k) == if Removed(k, r.1.Some?) then None else Get(merged, k)
  {
    var noBox := Del(Merge(kwargs, columnFilters), "box");
    if "coord1" in Keys(noBox) && "coord2" in Keys(noBox) then
      (Del(Del(noBox, "coord1"), "coord2"), Some((Get(noBox, "coord1").value, Get(noBox, "coord2").value)))
    else (noBox, None)
  }

  /** A column filter wins over a keyword argument of the same name, and
      what is not removed keeps its value. */
  lemma FiltersPrecedence(kwargs: Dict<Scalar>, columnFilters: Dict<Scalar>, k: string)
    requires ValidDict(columnFilters)
    ensures var (d, coords) := FieldFilters(kwargs, columnFilters);
      Get(d, k) == if Removed(k, coords.Some?) then None
                   else if k in Keys(columnFilters) then Get(columnFilters, k) else Get(kwargs, k)
  {
    MergeGet(kwargs, columnFilters, k);
  }

  /** A single coordinate is no circle: it stays an equality filter. */
  lemma SingleCoordStays(kwargs: Dict<Scalar>, columnFilters: Dict<Scalar>)
    requires var m := Merge(kwargs, columnFilters); "coord1" in Keys(m) && "coord2" !in Keys(m)
    ensures var (d, coords) := FieldFilters(kwargs, columnFilters);
      coords.None? && "coord1" in Keys(d)
  {
    var (d, coords) := FieldFilters(kwargs, columnFilters);
    assert Get(d, "coord1").Some?;
  }

  /** The where constraints: the primary constraint first, then the
      equality filters, then the circle. */
  function FieldWhere(on: QueryOnField, primary: Primary, kwargs: Dict<Scalar>,
                      columnFilters: Dict<Scalar>, sanitize: Scalar -> string): (ws: seq<string>)
    ensures var (d, coords) := FieldFilters(kwargs, columnFilters);
      && |ws| == 1 + |d| + (if coords.Some? then 1 else 0)
      && ws[0] == PrimaryConstraint(on.columnName, primary)
      && ws[1..1 + |d|] == EqualityConstraints(d, sanitize)
      && (coords.Some? ==> ws[|ws| - 1] == CoordConstraint(coords.value.0, coords.value.1))
  {
    var (d, coords) := FieldFilters(kwargs, columnFilters);
    var circle := if coords.Some? then [CoordConstraint(coords.value.0, coords.value.1)] else [];
    var eqs := EqualityConstraints(d, sanitize);
    var ws := [PrimaryConstraint(on.columnName, primary)] + (eqs + circle);
    ThreeParts(PrimaryConstraint(on.columnName, primary), eqs, circle);
    ws
  }

  /** Where the parts of `[x] + (b + c)` sit. */
  lemma ThreeParts<T>(x: T, b: seq<T>, c: seq<T>)
    ensures var s := [x] + (b + c);
      && |s| == 1 + |b| + |c| && s[0] == x && s[1..1 + |b|] == b
      && (|c| > 0 ==> s[|s| - 1] == c[|c| - 1])
  {
  }

  /** `columns or []`. */
  function ColumnsOrEmpty(columns: Option<Columns>): Option<Columns> {
    match columns
    case None => Some(ColList([]))
    case Some(ColText("")) => Some(ColList([]))
    case Some(c) => Some(c)
  }

  /** The help listing for a table. */
  function HelpQuery(table: string): string {
    "select column_name, datatype from TAP_SCHEMA.columns where table_name = '" + table + "'"
  }

  /** `_query_instrument_or_collection`: the help listing when asked for,
      otherwise the row-limited query over the table with the where
      constraints above. */
  function QueryInstrumentOrCollection(on: QueryOnField, primary: Option<Primary>,
                                       columnFilters: Dict<Scalar>, columns: Option<Columns>,
                                       printHelp: bool, cache: bool, kwargs: Dict<Scalar>,
                                       rowLimit: Option<int>, sanitize: Scalar -> string): (r: Result<TapRequest, QueryError>)
    ensures printHelp ==> r == Success(TapRequest(HelpQuery(on.tableName), None, false))
    ensures !printHelp ==> (r.Failure? <==> primary.None?)
    ensures !printHelp && r.Success? ==>
              r.value.cache == Some(cache) && r.value.returnsResult
              && StartsWith(r.value.query, "select")
  {
    if printHelp then Success(TapRequest(HelpQuery(on.tableName), None, false))
    else if primary.None? then Failure(PrimaryMissing)
    else
      var ws := FieldWhere(on, primary.value, kwargs, columnFilters, sanitize);
      Success(TapRequest(Py2Adql(on.tableName, ColumnsOrEmpty(columns), None, None, None, Some(ws),
                                 "", true, false, rowLimit), Some(cache), true))
  }

  /** `query_instrument`. */
  function QueryInstrument(instrument: Option<Primary>, columnFilters: Dict<Scalar>, columns: Option<Columns>,
                           printHelp: bool, cache: bool, kwargs: Dict<Scalar>,
                           rowLimit: Option<int>, sanitize: Scalar -> string): (r: Result<TapRequest, QueryError>)
    ensures !printHelp && r.Success? ==> StartsWith(r.value.query, "select")
  {
    QueryInstrumentOrCollection(QueryOnInstrument, instrument, columnFilters, columns, printHelp, cache,
                                kwargs, rowLimit, sanitize)
  }

  /** `query_collections`. */
  function QueryCollections(collections: Option<Primary>, columnFilters: Dict<Scalar>, columns: Option<Columns>,
                            printHelp: bool, cache: bool, kwargs: Dict<Scalar>,
                            rowLimit: Option<int>, sanitize: Scalar -> string): (r: Result<TapRequest, QueryError>)
    ensures !printHelp && r.Success? ==> StartsWith(r.value.query, "select")
  {
    QueryInstrumentOrCollection(QueryOnCollection, collections, columnFilters, columns, printHelp, cache,
                                kwargs, rowLimit, sanitize)
  }

  /** The query text in full: `select [top n] <columns> from <table> where
      <constraints>`, when the quoting never yields text ending in
      whitespace (nothing is stripped off the last constraint then). */
  lemma FieldQueryText(on: QueryOnField, primary: Primary, columnFilters: Dict<Scalar>,
                       columns: Option<Columns>, cache: bool, kwargs: Dict<Scalar>,
                       rowLimit: Option<int>, sanitize: Scalar -> string)
    requires forall v :: EndsTidy(sanitize(v))
    ensures var ws := FieldWhere(on, primary, kwargs, columnFilters, sanitize);
      var r := QueryInstrumentOrCollection(on, Some(primary), columnFilters, columns, false, cache, kwargs, rowLimit, sanitize);
      && r.Success? && r.value.cache == Some(cache) && r.value.returnsResult
      && r.value.query == "select" + (TopPart(rowLimit) + (Join(", ", EffectiveColumns(ColumnsOrEmpty(columns), false))
                                                 + " from " + on.tableName + (" where " + Join(" and ", ws))))
  {
    var ws := FieldWhere(on, primary, kwargs, columnFilters, sanitize);
    FieldWhereTidy(on, primary, kwargs, columnFilters, sanitize);
    Py2AdqlWhereOnly(on.tableName, ColumnsOrEmpty(columns), ws, true, false, rowLimit);
  }

  /** The last where constraint ends in the quoting's last character, the
      circle's closing `1`, or the primary constraint's `)`. */
  lemma FieldWhereTidy(on: QueryOnField, primary: Primary, kwargs: Dict<Scalar>,
                       columnFilters: Dict<Scalar>, sanitize: Scalar -> string)
    requires forall v :: EndsTidy(sanitize(v))
    ensures var ws := FieldWhere(on, primary, kwargs, columnFilters, sanitize);
      |ws| > 0 && EndsTidy(ws[|ws| - 1])
  {
    var ws := FieldWhere(on, primary, kwargs, columnFilters, sanitize);
    var (d, coords) := FieldFilters(kwargs, columnFilters);
    var last := ws[|ws| - 1];
    if coords.None? && |d| > 0 {
      var e := EqualityConstraints(d, sanitize);
      assert last == e[|d| - 1];
      var s := sanitize(d[|d| - 1].1);
      assert last == Equality(d[|d| - 1].0, s);
      assert EndsTidy(s);
      assert last[|last| - 1] == last[|d[|d| - 1].0| + 3..][|s| - 1] == s[|s| - 1];
    }
  }

  /** `query_main`: the equality filters only, over `dbo.raw`. The main
      query is issued without the caller's caching choice; only the help
      listing passes it on. */
  function QueryMain(columnFilters: Dict<Scalar>, columns: Option<Columns>, printHelp: bool, cache: bool,
                     kwargs: Dict<Scalar>, rowLimit: Option<int>, sanitize: Scalar -> string): (r: TapRequest)
    ensures printHelp ==> r == TapRequest(HelpQuery(MainTable), Some(cache), false)
    ensures !printHelp ==> r.cache == None && r.returnsResult && StartsWith(r.query, "select")
  {
    var ws := EqualityConstraints(Merge(kwargs, columnFilters), sanitize);
    if printHelp then TapRequest(HelpQuery(MainTable), Some(cache), false)
    else TapRequest(Py2Adql(MainTable, ColumnsOrEmpty(columns), None, None, None, Some(ws), "", true, false, rowLimit),
                    None, true)
  }

  /** Without filters the main query has no where clause. */
  lemma QueryMainUnfiltered(columns: Option<Columns>, cache: bool, rowLimit: Option<int>, sanitize: Scalar -> string)
    ensures QueryMain([], columns, false, cache, [], rowLimit, sanitize).query
            == "select" + (TopPart(rowLimit) + (Join(", ", EffectiveColumns(ColumnsOrEmpty(columns), false)) + " from " + MainTable))
  {
    assert Merge<Scalar>([], []) == [];
    Py2AdqlNoWhere(MainTable, ColumnsOrEmpty(columns), None, None, Some([]), true, false, rowLimit);
  }

  /** With filters, every filter becomes one `k = v` constraint of the main
      query, in dictionary order, and the column filters win. */
  lemma QueryMainFiltered(columnFilters: Dict<Scalar>, columns: Option<Columns>, cache: bool,
                          kwargs: Dict<Scalar>, rowLimit: Option<int>, sanitize: Scalar -> string)
    requires |Merge(kwargs, columnFilters)| > 0 && forall v :: EndsTidy(sanitize(v))
    ensures var ws := EqualityConstraints(Merge(kwargs, columnFilters), sanitize);
      QueryMain(columnFilters, columns, false, cache, kwargs, rowLimit, sanitize).query
      == "select" + (TopPart(rowLimit) + (Join(", ", EffectiveColumns(ColumnsOrEmpty(columns), false))
                                          + " from " + MainTable + (" where " + Join(" and ", ws))))
  {
    var d := Merge(kwargs, columnFilters);
    var ws := EqualityConstraints(d, sanitize);
    var s := sanitize(d[|d| - 1].1);
    assert ws[|ws| - 1] == Equality(d[|d| - 1].0, s);
    assert EndsTidy(s);
    assert ws[|ws| - 1][|ws[|ws| - 1]| - 1] == s[|s| - 1];
    Py2AdqlWhereOnly(MainTable, ColumnsOrEmpty(columns), ws, true, false, rowLimit);
  }
}
