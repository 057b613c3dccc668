/**
 The ADQL helpers of the ESO client: comma splitting, column reordering,
 literal quoting, argument validation and the `py2adql` query builder.
 */
module EsoUtils {
  import opened Wrappers
  import opened PyText

  const DefaultLeadColsRaw: seq<string> := ["object", "ra", "dec", "dp_id", "date_obs", "prog_id"]
  const DefaultLeadColsPhase3: seq<string> := ["target_name", "s_ra", "s_dec", "dp_id", "date_obs", "proposal_id"]

  // ---------------------------------------------------------------------------
  // _split_str_as_list_of_str

  /** The comma-separated pieces of `s`, each stripped; no pieces at all for
      the empty string. */
  function SplitStrAsListOfStr(s: string): (r: seq<string>)
    ensures s == "" ==> r == []
    ensures s != "" ==> |r| == Count(s, ',') + 1
    ensures forall k :: 0 <= k < |r| ==> Clean(r[k]) && ',' !in r[k]
  {
    if s == "" then []
    else
      var pieces := Split(s, ',');
      var r := StripAll(pieces);
      assert forall k :: 0 <= k < |r| ==> Clean(r[k]) && ',' !in r[k] by {
        forall k | 0 <= k < |r| ensures Clean(r[k]) && ',' !in r[k] {
          StripNoComma(pieces[k]);
        }
      }
      r
  }

  /** No whitespace at either end. */
  predicate Clean(x: string) {
    |x| == 0 || (!IsSpace(x[0]) && !IsSpace(x[|x| - 1]))
  }

  function StripAll(xs: seq<string>): (r: seq<string>)
    ensures |r| == |xs|
    ensures forall k :: 0 <= k < |xs| ==> r[k] == Strip(xs[k])
  {
    seq(|xs|, k requires 0 <= k < |xs| => Strip(xs[k]))
  }

  lemma StripNoComma(s: string)
    requires ',' !in s
    ensures ',' !in Strip(s)
  {
    var i := StripIsMiddle(s);
  }

  /** Each piece is the stripped text between two commas of the input, and
      the unstripped pieces glue back to the input. */
  lemma SplitStrPieces(s: string)
    requires s != ""
    ensures var pieces := Split(s, ',');
      && Join(",", pieces) == s
      && forall k :: 0 <= k < |pieces| ==> SplitStrAsListOfStr(s)[k] == Strip(pieces[k])
  {
    JoinSplit(s, ',');
  }

  /** Round trip: comma-joining clean names and splitting them again gives
      back the names. */
  lemma SplitStrOfJoin(names: seq<string>)
    requires |names| > 0 && Join(",", names) != ""
    requires forall k :: 0 <= k < |names| ==> ',' !in names[k] && Strip(names[k]) == names[k]
    ensures SplitStrAsListOfStr(Join(",", names)) == names
  {
    assert "," == [','];
    var s := Join(",", names);
    SplitJoin(names, ',');
    assert StripAll(Split(s, ',')) == StripAll(names);
    StripAllFixed(names);
  }

  /** Stripping names that are already stripped changes none of them. */
  lemma StripAllFixed(names: seq<string>)
    requires forall k :: 0 <= k < |names| ==> Strip(names[k]) == names[k]
    ensures StripAll(names) == names
  {
    var r := StripAll(names);
    forall k | 0 <= k < |r| ensures r[k] == names[k] {
      assert r[k] == Strip(names[k]);
    }
  }

  // ---------------------------------------------------------------------------
  // reorder_columns

  /** The argument of `reorder_columns`: an astropy table, seen through its
      column names, or any other object, which is handed back untouched. */
  datatype TableArg = Table(colnames: seq<string>) | NotTable(other: string)

  /** The leading columns chosen: those present in `cols`, in `lead` order,
      each once. */
  function Chosen(lead: seq<string>, cols: seq<string>): seq<string> {
    if |lead| == 0 then []
    else
      var p := Chosen(lead[..|lead| - 1], cols);
      var x := lead[|lead| - 1];
      if x in cols && x !in p then p + [x] else p
  }

  /** The remaining columns, in their original relative order. */
  function Others(cols: seq<string>, lead: seq<string>): seq<string> {
    if |cols| == 0 then []
    else (if cols[0] in lead then [] else [cols[0]]) + Others(cols[1..], lead)
  }

  /** `list.remove(x)`: drops the first occurrence. */
  function RemoveFirst(s: seq<string>, x: string): (r: seq<string>)
    ensures x in s ==> multiset(r) == multiset(s) - multiset{x}
    ensures x !in s ==> r == s
  {
    if |s| == 0 then []
    else
      assert s == [s[0]] + s[1..];
      assert multiset(s) == multiset{s[0]} + multiset(s[1..]);
      if s[0] == x then s[1..]
      else
        assert x in s <==> x in s[1..];
        [s[0]] + RemoveFirst(s[1..], x)
  }

  lemma {:induction false} ChosenMembers(lead: seq<string>, cols: seq<string>, x: string)
    ensures x in Chosen(lead, cols) <==> x in lead && x in cols
  {
    if |lead| > 0 {
      ChosenMembers(lead[..|lead| - 1], cols, x);
      assert lead == lead[..|lead| - 1] + [lead[|lead| - 1]];
    }
  }

  lemma {:induction false} OthersMembers(cols: seq<string>, lead: seq<string>, x: string)
    ensures x in Others(cols, lead) <==> x in cols && x !in lead
  {
    if |cols| > 0 {
      OthersMembers(cols[1..], lead, x);
      assert cols == [cols[0]] + cols[1..];
    }
  }

  lemma {:induction false} OthersIgnoresAbsent(cols: seq<string>, lead: seq<string>, x: string)
    requires x !in cols
    ensures Others(cols, lead + [x]) == Others(cols, lead)
  {
    if |cols| > 0 {
      OthersIgnoresAbsent(cols[1..], lead, x);
    }
  }

  lemma TailNoDup(cols: seq<string>)
    requires NoDup(cols) && |cols| > 0
    ensures NoDup(cols[1..]) && cols[0] !in cols[1..]
  {
  }

  lemma {:induction false} OthersStep(cols: seq<string>, lead: seq<string>, x: string)
    requires NoDup(cols)
    ensures Others(cols, lead + [x]) == RemoveFirst(Others(cols, lead), x)
  {
    if |cols| > 0 {
      var c := cols[0];
      var rest := cols[1..];
      TailNoDup(cols);
      OthersStep(rest, lead, x);
      var lhs := Others(cols, lead + [x]);
      var prev := Others(cols, lead);
      if c in lead {
        assert c in lead + [x];
        assert lhs == Others(rest, lead + [x]);
        assert prev == Others(rest, lead);
      } else if c == x {
        assert lhs == Others(rest, lead + [x]);
        assert prev == [c] + Others(rest, lead);
        OthersIgnoresAbsent(rest, lead, x);
        assert RemoveFirst(prev, x) == Others(rest, lead);
      } else {
        assert c !in lead + [x];
        assert lhs == [c] + Others(rest, lead + [x]);
        assert prev == [c] + Others(rest, lead);
        assert RemoveFirst(prev, x) == [c] + RemoveFirst(Others(rest, lead), x);
      }
    }
  }

  lemma {:induction false} OthersAll(cols: seq<string>)
    ensures Others(cols, []) == cols
  {
    if |cols| > 0 {
      OthersAll(cols[1..]);
      assert cols == [cols[0]] + cols[1..];
    }
  }

  /** `leading_cols or DEFAULT_LEAD_COLS_RAW`: an absent or empty list means
      the raw-data default. */
  function LeadOrDefault(leading: Option<seq<string>>): seq<string> {
    if leading.None? || leading.value == [] then DefaultLeadColsRaw else leading.value
  }

  /** `reorder_columns`: the present leading columns first, in leading order,
      then the remaining columns in their original order; a permutation of
      the table's columns. Anything but a table comes back unchanged. */
  method ReorderColumns(table: TableArg, leading: Option<seq<string>>) returns (r: TableArg)
    requires table.Table? ==> NoDup(table.colnames)
    ensures table.NotTable? ==> r == table
    ensures table.Table? ==> r.Table?
    ensures table.Table? ==>
      r.colnames == Chosen(LeadOrDefault(leading), table.colnames) + Others(table.colnames, LeadOrDefault(leading))
    ensures table.Table? ==> multiset(r.colnames) == multiset(table.colnames) && NoDup(r.colnames)
  {
    if table.NotTable? {
      return table;
    }
    var names := ReorderNames(table.colnames, LeadOrDefault(leading));
    r := Table(names);
  }

  /** The loop of `reorder_columns` over the column names. */
  method ReorderNames(cols: seq<string>, lead: seq<string>) returns (r: seq<string>)
    requires NoDup(cols)
    ensures r == Chosen(lead, cols) + Others(cols, lead)
    ensures multiset(r) == multiset(cols) && NoDup(r)
  {
    var firstCols: seq<string> := [];
    var lastCols := cols;
    OthersAll(cols);
    var i := 0;
    while i < |lead|
      invariant 0 <= i <= |lead|
      invariant firstCols == Chosen(lead[..i], cols)
      invariant lastCols == Others(cols, lead[..i])
      invariant multiset(firstCols) + multiset(lastCols) == multiset(cols)
    {
      var x := lead[i];
      ReorderInvariant(cols, lead, i, firstCols, lastCols);
      if x in lastCols {
        lastCols := RemoveFirst(lastCols, x);
        firstCols := firstCols + [x];
      }
      i := i + 1;
    }
    assert lead[..i] == lead;
    r := firstCols + lastCols;
    PermutationNoDup(cols, r);
  }

  /** The loop invariant of `reorder_columns` survives one leading column. */
  lemma ReorderInvariant(cols: seq<string>, lead: seq<string>, i: nat, firstCols: seq<string>, lastCols: seq<string>)
    requires NoDup(cols) && i < |lead|
    requires firstCols == Chosen(lead[..i], cols) && lastCols == Others(cols, lead[..i])
    requires multiset(firstCols) + multiset(lastCols) == multiset(cols)
    ensures var x := lead[i];
      var f := if x in lastCols then firstCols + [x] else firstCols;
      var l := if x in lastCols then RemoveFirst(lastCols, x) else lastCols;
      f == Chosen(lead[..i + 1], cols) && l == Others(cols, lead[..i + 1])
      && multiset(f) + multiset(l) == multiset(cols)
  {
    ReorderStep(cols, lead, i);
  }

  lemma PermutationNoDup(a: seq<string>, b: seq<string>)
    requires NoDup(a) && multiset(a) == multiset(b)
    ensures NoDup(b)
  {
    NoDupCounts(a);
    NoDupCounts(b);
    forall x | x in b ensures multiset(b)[x] == 1 {
      assert x in multiset(b);
      assert x in a;
    }
  }

  /** One iteration of the loop: `x in last_cols` decides exactly what the
      reference definitions add and remove. */
  lemma ReorderStep(cols: seq<string>, lead: seq<string>, i: nat)
    requires NoDup(cols) && i < |lead|
    ensures var x := lead[i];
      var prefix := lead[..i];
      && (x in Others(cols, prefix) <==> x in cols && x !in Chosen(prefix, cols))
      && Chosen(lead[..i + 1], cols)
         == (if x in Others(cols, prefix) then Chosen(prefix, cols) + [x] else Chosen(prefix, cols))
      && Others(cols, lead[..i + 1]) == RemoveFirst(Others(cols, prefix), x)
  {
    var x := lead[i];
    var prefix := lead[..i];
    assert lead[..i + 1] == prefix + [x];
    assert (prefix + [x])[..i] == prefix;
    OthersStep(cols, prefix, x);
    OthersMembers(cols, prefix, x);
    ChosenMembers(prefix, cols, x);
  }

  // ---------------------------------------------------------------------------
  // adql_sanitize_val

  /** A string gains one pair of single quotes, whatever it already holds;
      anything else is rendered bare with `str()`. */
  function AdqlSanitizeVal(x: Scalar): (r: string)
    ensures x.Str? ==> |r| == |x.s| + 2 && r[0] == '\'' && r[|r| - 1] == '\'' && r[1..|r| - 1] == x.s
    ensures !x.Str? ==> r == Show(x)
  {
    if x.Str? then "'" + x.s + "'" else Show(x)
  }

  /** The quoting is not idempotent: an already quoted value is quoted again. */
  lemma SanitizeQuotesTwice(s: string)
    ensures AdqlSanitizeVal(Str(AdqlSanitizeVal(Str(s)))) == "''" + s + "''"
  {
  }

  // ---------------------------------------------------------------------------
  // _are_coords_valid, _is_timestamp_valid, _validate_arguments

  /** All three cone arguments absent, or all three numbers (a Python `bool`
      is an `int`, so it counts as a number). Counted by how many are given:
      none is valid, one or two never are, and three are valid exactly when
      all are numbers. */
  function AreCoordsValid(ra: Option<Scalar>, dec: Option<Scalar>, radius: Option<Scalar>): (r: bool)
    ensures PresentCount(ra, dec, radius) == 0 ==> r
    ensures 1 <= PresentCount(ra, dec, radius) <= 2 ==> !r
    ensures PresentCount(ra, dec, radius) == 3 ==>
              (r <==> IsNumber(ra.value) && IsNumber(dec.value) && IsNumber(radius.value))
  {
    var allNone := ra.None? && dec.None? && radius.None?;
    var allNumbers := ra.Some? && IsNumber(ra.value) && dec.Some? && IsNumber(dec.value)
                      && radius.Some? && IsNumber(radius.value);
    allNone || allNumbers
  }

  function PresentCount(ra: Option<Scalar>, dec: Option<Scalar>, radius: Option<Scalar>): nat {
    (if ra.Some? then 1 else 0) + (if dec.Some? then 1 else 0) + (if radius.Some? then 1 else 0)
  }

  /** A partial cone (one or two of the three given) is never valid. */
  lemma PartialConeInvalid(ra: Option<Scalar>, dec: Option<Scalar>, radius: Option<Scalar>)
    requires 1 <= PresentCount(ra, dec, radius) <= 2
    ensures !AreCoordsValid(ra, dec, radius)
  {
  }

  /** `_is_timestamp_valid`: `None` is valid, a non-string is not, and a
      string is valid when the date parser accepts it. The parser
      (`datetime.strptime` with the format `%Y-%m-%d %H:%M:%S`) is a
      parameter of the model. */
  function IsTimestampValid(t: Option<Scalar>, parses: string -> bool): (r: bool)
    ensures t.None? ==> r
    ensures t.Some? && !t.value.Str? ==> !r
    ensures t.Some? && t.value.Str? ==> (r <==> parses(t.value.s))
  {
    match t
    case None => true
    case Some(x) => x.Str? && parses(x.s)
  }

  /** The `ValueError`s of `_validate_arguments`, in the order it checks
      them; `FiltersMissing` is the `TypeError` that `'box' in None` raises. */
  datatype ArgError = FiltersMissing | DeprecatedKeys | PartialCone | BadTimestamp | StartNotBeforeEnd

  const DeprecatedFilterKeys: set<string> := {"box", "coord1", "coord2"}

  /** `_validate_arguments`: `None` when the arguments pass, otherwise the
      first failing check. */
  function ValidateArguments(filters: Option<set<string>>,
                             coneRa: Option<Scalar>, coneDec: Option<Scalar>, coneRadius: Option<Scalar>,
                             startTime: Option<Scalar>, endTime: Option<Scalar>,
                             parses: string -> bool): (err: Option<ArgError>)
    ensures filters.None? <==> err == Some(FiltersMissing)
    ensures filters.Some? && ("box" in filters.value || "coord1" in filters.value || "coord2" in filters.value)
            <==> err == Some(DeprecatedKeys)
    ensures err == Some(PartialCone) ==> !AreCoordsValid(coneRa, coneDec, coneRadius)
    ensures err == Some(StartNotBeforeEnd) ==>
              startTime.Some? && endTime.Some? && startTime.value.Str? && endTime.value.Str?
              && !LexLess(startTime.value.s, endTime.value.s)
    ensures err.None? <==>
              && filters.Some?
              && filters.value !! DeprecatedFilterKeys
              && AreCoordsValid(coneRa, coneDec, coneRadius)
              && IsTimestampValid(startTime, parses) && IsTimestampValid(endTime, parses)
              && (startTime.Some? && endTime.Some? ==> LexLess(startTime.value.s, endTime.value.s))
  {
    if filters.None? then Some(FiltersMissing)
    else if "box" in filters.value || "coord1" in filters.value || "coord2" in filters.value then
      Some(DeprecatedKeys)
    else if !AreCoordsValid(coneRa, coneDec, coneRadius) then Some(PartialCone)
    else if !IsTimestampValid(startTime, parses) || !IsTimestampValid(endTime, parses) then Some(BadTimestamp)
    else if startTime.Some? && endTime.Some? && !LexLess(startTime.value.s, endTime.value.s) then
      Some(StartNotBeforeEnd)
    else None
  }

  // ---------------------------------------------------------------------------
  // py2adql

  /** The `columns` argument: a comma-separated string or a list of names. */
  datatype Columns = ColText(text: string) | ColList(names: seq<string>)

  /** The column list rules: absent or empty means `*`, a string is split at
      commas, and `count_only` wins over everything. */
  function EffectiveColumns(columns: Option<Columns>, countOnly: bool): (r: seq<string>)
    ensures |r| > 0
    ensures countOnly ==> r == ["count(*)"]
    ensures !countOnly && (columns.None? || columns == Some(ColList([])) || columns == Some(ColText("")))
            ==> r == ["*"]
    ensures !countOnly && columns.Some? && columns.value.ColList? && columns.value.names != []
            ==> r == columns.value.names
    ensures !countOnly && columns.Some? && columns.value.ColText? && columns.value.text != ""
            ==> r == SplitStrAsListOfStr(columns.value.text)
  {
    var listed := match columns
      case None => []
      case Some(ColText(t)) => SplitStrAsListOfStr(t)
      case Some(ColList(ns)) => ns;
    if countOnly then ["count(*)"]
    else if |listed| < 1 then ["*"]
    else listed
  }

  /** The cone-search constraint. A missing coordinate is rendered `None`,
      as the f-string does. */
  function ConeFragment(ra: Option<Scalar>, dec: Option<Scalar>, radius: Option<Scalar>): string {
    "intersects(s_region, circle('ICRS', " + ShowOpt(ra) + ", " + ShowOpt(dec) + ", " + ShowOpt(radius) + "))=1"
  }

  /** The where constraints of the query: a copy of the caller's list, then
      the cone constraint when a radius is given. */
  function WhereList(whereConstraints: Option<seq<string>>,
                     ra: Option<Scalar>, dec: Option<Scalar>, radius: Option<Scalar>): (r: seq<string>)
    ensures var caller := whereConstraints.GetOr([]);
      && |r| == |caller| + (if radius.Some? then 1 else 0)
      && r[..|caller|] == caller
      && (radius.Some? ==> r[|caller|] == ConeFragment(ra, dec, radius))
  {
    var caller := whereConstraints.GetOr([]);
    if radius.Some? then caller + [ConeFragment(ra, dec, radius)] else caller
  }

  // The clauses of an ADQL select statement, in the order they are read.

  /** What follows the `select` keyword: the row limit when there is one. */
  function TopPart(top: Option<int>): string {
    if top.Some? then " top " + IntToDecimal(top.value) + " " else " "
  }

  function WhereClause(ws: seq<string>): string {
    if |ws| == 0 then "" else " where " + Join(" and ", ws)
  }

  function OrderClause(orderBy: string, desc: bool): string {
    if |orderBy| == 0 then "" else " order by " + orderBy + (if desc then " desc " else " asc ")
  }

  /** The text after `select`, assembled in the order the source assembles
      it: columns and table, then the where clause, then the ordering. */
  function BuiltBody(table: string, columns: Option<Columns>,
                     coneRa: Option<Scalar>, coneDec: Option<Scalar>, coneRadius: Option<Scalar>,
                     whereConstraints: Option<seq<string>>,
                     orderBy: string, orderByDesc: bool, countOnly: bool): string {
    var wc := WhereList(whereConstraints, coneRa, coneDec, coneRadius);
    var body := Join(", ", EffectiveColumns(columns, countOnly)) + " from " + table;
    var body := if |wc| > 0 then body + WhereClause(wc) else body;
    if |orderBy| > 0 then body + OrderClause(orderBy, orderByDesc) else body
  }

  /** `py2adql`: the `select` prefix is put in front of the body last, then
      the whole text is stripped. `start_time` and `end_time` are accepted
      by the source and unused. */
  function Py2Adql(table: string, columns: Option<Columns>,
                   coneRa: Option<Scalar>, coneDec: Option<Scalar>, coneRadius: Option<Scalar>,
                   whereConstraints: Option<seq<string>>,
                   orderBy: string, orderByDesc: bool, countOnly: bool, top: Option<int>): (q: string)
    ensures StartsWith(q, "select")
    ensures !IsSpace(q[|q| - 1])
  {
    StripSelect("select" + (TopPart(top) + BuiltBody(table, columns, coneRa, coneDec, coneRadius,
                                                     whereConstraints, orderBy, orderByDesc, countOnly)))
  }

  /** `query_string.strip()` of a text that starts with `select`. */
  function StripSelect(full: string): (q: string)
    requires StartsWith(full, "select")
    ensures StartsWith(q, "select")
    ensures |q| > 0 && !IsSpace(q[|q| - 1])
  {
    StripOfSelect(full, "select");
    Strip(full)
  }

  /** Stripping a text that starts with a keyword-led prefix ending in a
      letter keeps the prefix and only removes trailing whitespace. */
  lemma StripOfSelect(full: string, head: string)
    requires StartsWith(full, head) && |head| > 0 && !IsSpace(head[0]) && !IsSpace(head[|head| - 1])
    ensures |Strip(full)| <= |full| && Strip(full) == full[..|Strip(full)|]
    ensures AllSpace(full[|Strip(full)|..])
    ensures StartsWith(Strip(full), head)
    ensures |Strip(full)| > 0 && !IsSpace(Strip(full)[0]) && !IsSpace(Strip(full)[|Strip(full)| - 1])
  {
    assert LStrip(full) == full;
    var r := RStrip(full);
    if |r| < |head| {
      assert full[|head| - 1] == head[|head| - 1];
      assert full[|r|..][|head| - 1 - |r|] == full[|head| - 1];
      AllSpaceAt(full[|r|..], |head| - 1 - |r|);
    }
  }

  /** Stripping a text whose first character and whose character at position
      `k - 1` are not whitespace keeps its first `k` characters. */
  lemma StripKeeps(full: string, k: nat)
    requires 0 < k <= |full| && !IsSpace(full[0]) && !IsSpace(full[k - 1])
    ensures k <= |Strip(full)| && Strip(full)[..k] == full[..k]
    ensures k == |full| ==> Strip(full) == full
  {
    assert LStrip(full) == full;
    var r := RStrip(full);
    if |r| < k {
      assert full[|r|..][k - 1 - |r|] == full[k - 1];
      AllSpaceAt(full[|r|..], k - 1 - |r|);
    }
  }

  /** Without where constraints and without ordering the body is the column
      list and the table. */
  lemma BuiltBodyPlain(table: string, columns: Option<Columns>,
                       coneRa: Option<Scalar>, coneDec: Option<Scalar>,
                       whereConstraints: Option<seq<string>>, orderByDesc: bool, countOnly: bool)
    requires whereConstraints.None? || whereConstraints == Some([])
    ensures BuiltBody(table, columns, coneRa, coneDec, None, whereConstraints, "", orderByDesc, countOnly)
            == Join(", ", EffectiveColumns(columns, countOnly)) + " from " + table
  {
    assert WhereList(whereConstraints, coneRa, coneDec, None) == [];
  }

  /** Without constraints and without a radius there is no where clause, and
      without ordering nothing follows the table name. */
  lemma Py2AdqlNoWhere(table: string, columns: Option<Columns>,
                       coneRa: Option<Scalar>, coneDec: Option<Scalar>,
                       whereConstraints: Option<seq<string>>,
                       orderByDesc: bool, countOnly: bool, top: Option<int>)
    requires whereConstraints.None? || whereConstraints == Some([])
    requires |table| > 0 && !IsSpace(table[|table| - 1])
    ensures Py2Adql(table, columns, coneRa, coneDec, None, whereConstraints, "", orderByDesc, countOnly, top)
            == "select" + (TopPart(top) + (Join(", ", EffectiveColumns(columns, countOnly)) + " from " + table))
  {
    var body := Join(", ", EffectiveColumns(columns, countOnly)) + " from " + table;
    BuiltBodyPlain(table, columns, coneRa, coneDec, whereConstraints, orderByDesc, countOnly);
    var full := "select" + (TopPart(top) + body);
    assert full[|full| - 1] == table[|table| - 1];
    StripKeeps(full, |full|);
  }

  /** With where constraints but no radius and no ordering, the query ends
      with the where clause, provided the last constraint does not end in
      whitespace. */
  lemma Py2AdqlWhereOnly(table: string, columns: Option<Columns>, ws: seq<string>,
                         orderByDesc: bool, countOnly: bool, top: Option<int>)
    requires |ws| > 0 && |ws[|ws| - 1]| > 0 && !IsSpace(ws[|ws| - 1][|ws[|ws| - 1]| - 1])
    ensures Py2Adql(table, columns, None, None, None, Some(ws), "", orderByDesc, countOnly, top)
            == "select" + (TopPart(top) + (Join(", ", EffectiveColumns(columns, countOnly)) + " from " + table
                                          + (" where " + Join(" and ", ws))))
  {
    var rest := TopPart(top) + (Join(", ", EffectiveColumns(columns, countOnly)) + " from " + table
                                + (" where " + Join(" and ", ws)));
    WhereOnlyEndsTidy(TopPart(top), Join(", ", EffectiveColumns(columns, countOnly)) + " from " + table, ws);
    Py2AdqlWhereOnlyStrip(table, columns, ws, orderByDesc, countOnly, top);
    StripSelectKeeps(rest);
  }

  /** The query text before stripping. */
  lemma Py2AdqlWhereOnlyStrip(table: string, columns: Option<Columns>, ws: seq<string>,
                              orderByDesc: bool, countOnly: bool, top: Option<int>)
    requires |ws| > 0
    ensures StartsWith("select" + (TopPart(top) + (Join(", ", EffectiveColumns(columns, countOnly)) + " from " + table
                                                   + (" where " + Join(" and ", ws)))), "select")
    ensures Py2Adql(table, columns, None, None, None, Some(ws), "", orderByDesc, countOnly, top)
            == StripSelect("select" + (TopPart(top) + (Join(", ", EffectiveColumns(columns, countOnly)) + " from " + table
                                                       + (" where " + Join(" and ", ws)))))
  {
    BuiltBodyWhere(table, columns, ws, orderByDesc, countOnly);
  }

  /** A where clause whose last constraint ends tidily ends the text. */
  lemma WhereOnlyEndsTidy(top: string, head: string, ws: seq<string>)
    requires |ws| > 0 && |ws[|ws| - 1]| > 0 && !IsSpace(ws[|ws| - 1][|ws[|ws| - 1]| - 1])
    ensures var rest := top + (head + (" where " + Join(" and ", ws)));
      |rest| > 0 && !IsSpace(rest[|rest| - 1])
  {
    var jw := Join(" and ", ws);
    JoinLast(" and ", ws);
    LastOfAppend(" where ", jw);
    LastOfAppend(head, " where " + jw);
    LastOfAppend(top, head + (" where " + jw));
  }

  /** Without a radius and without ordering, the body ends with the where
      clause. */
  lemma BuiltBodyWhere(table: string, columns: Option<Columns>, ws: seq<string>, orderByDesc: bool, countOnly: bool)
    requires |ws| > 0
    ensures BuiltBody(table, columns, None, None, None, Some(ws), "", orderByDesc, countOnly)
            == Join(", ", EffectiveColumns(columns, countOnly)) + " from " + table + (" where " + Join(" and ", ws))
  {
    assert WhereList(Some(ws), None, None, None) == ws;
  }

  /** A query whose last character is not whitespace is left as it is. */
  lemma StripSelectKeeps(rest: string)
    requires |rest| > 0 && !IsSpace(rest[|rest| - 1])
    ensures StartsWith("select" + rest, "select")
    ensures StripSelect("select" + rest) == "select" + rest
  {
    var full := "select" + rest;
    assert full[..6] == "select";
    assert full[|full| - 1] == rest[|rest| - 1];
    StripKeeps(full, |full|);
  }

  /** With a radius and an ordering, the body is the column part, the where
      clause with the cone constraint last, and the ordering clause. */
  lemma BuiltBodyWhereOrder(table: string, columns: Option<Columns>,
                            coneRa: Option<Scalar>, coneDec: Option<Scalar>, coneRadius: Scalar,
                            caller: seq<string>, orderBy: string, orderByDesc: bool, countOnly: bool)
    requires |orderBy| > 0
    ensures BuiltBody(table, columns, coneRa, coneDec, Some(coneRadius), Some(caller), orderBy, orderByDesc, countOnly)
            == (Join(", ", EffectiveColumns(columns, countOnly)) + " from " + table
                + (" where " + Join(" and ", caller + [ConeFragment(coneRa, coneDec, Some(coneRadius))])))
               + ((" order by " + orderBy) + (if orderByDesc then " desc " else " asc "))
  {
    assert WhereList(Some(caller), coneRa, coneDec, Some(coneRadius))
        == caller + [ConeFragment(coneRa, coneDec, Some(coneRadius))];
  }

  /** Stripping keeps an infix that is followed by at least two characters of
      which the first non-final one is not whitespace. */
  lemma StripKeepsInfix(h: string, t: string, pre: string, w: string, o: string, ob: string, sfx: string)
    requires |h| > 0 && !IsSpace(h[0]) && |sfx| >= 2 && !IsSpace(sfx[|sfx| - 2])
    ensures IsInfix(w + o, Strip(h + (t + ((pre + w) + ((o + ob) + sfx)))))
  {
    var full := h + (t + ((pre + w) + ((o + ob) + sfx)));
    assert full == (h + t + pre) + (w + o) + (ob + sfx);
    StripKeepsMiddle(h + t + pre, w + o, ob + sfx);
  }

  /** Two texts with the same first `k` characters agree on every slice
      within them. */
  lemma SliceOfSamePrefix(x: string, y: string, k: nat, i: nat, j: nat)
    requires k <= |x| && k <= |y| && x[..k] == y[..k] && i <= j <= k
    ensures x[i..j] == y[i..j]
  {
    forall t | 0 <= t < j - i
      ensures x[i..j][t] == y[i..j][t]
    {
      assert x[..k][i + t] == y[..k][i + t];
    }
  }

  /** Stripping keeps a middle part when the text starts with a
      non-whitespace character and its last-but-one character is not
      whitespace either. */
  lemma StripKeepsMiddle(a: string, m: string, b: string)
    requires |a| > 0 && !IsSpace(a[0]) && |b| >= 2 && !IsSpace(b[|b| - 2])
    ensures IsInfix(m, Strip(a + m + b))
  {
    var full := a + m + b;
    var k := |full| - 1;
    assert full[k - 1] == b[|b| - 2];
    StripKeeps(full, k);
    var st := Strip(full);
    SliceOfSamePrefix(st, full, k, |a|, |a| + |m|);
    assert full[|a|..|a| + |m|] == m;
    InfixAt(m, st, |a|);
  }

  /** With a radius the cone constraint is the last where constraint, after
      the caller's constraints in their order; with an ordering clause
      following, the where clause appears verbatim in the query. */
  lemma Py2AdqlWhereOrder(table: string, columns: Option<Columns>,
                          coneRa: Option<Scalar>, coneDec: Option<Scalar>, coneRadius: Scalar,
                          caller: seq<string>, orderBy: string, orderByDesc: bool,
                          countOnly: bool, top: Option<int>)
    requires |orderBy| > 0
    ensures IsInfix(" where " + Join(" and ", caller + [ConeFragment(coneRa, coneDec, Some(coneRadius))]) + " order by ",
                    Py2Adql(table, columns, coneRa, coneDec, Some(coneRadius), Some(caller),
                            orderBy, orderByDesc, countOnly, top))
  {
    BuiltBodyWhereOrder(table, columns, coneRa, coneDec, coneRadius, caller, orderBy, orderByDesc, countOnly);
    StripKeepsInfix("select", TopPart(top), Join(", ", EffectiveColumns(columns, countOnly)) + " from " + table,
                    " where " + Join(" and ", caller + [ConeFragment(coneRa, coneDec, Some(coneRadius))]),
                    " order by ", orderBy, if orderByDesc then " desc " else " asc ");
  }
}
