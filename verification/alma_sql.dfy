/**
 The ALMA query payload and the ADQL it becomes. A payload is an ordered
 dictionary of constraints; each constraint names an entry of the form-key
 table by its keyword or by its column, and that entry's generator turns the
 value into a WHERE fragment. The generators live in a module that is not
 part of this model: they are one abstract function of the generator kind,
 the column and the value.
 */
module AlmaSql {
  import opened Wrappers
  import opened PyText
  import opened PyDict

  /** A payload value: a scalar or a list of scalars. */
  datatype Value = Atom(x: Scalar) | Items(xs: seq<Scalar>)

  /** `str(value)`: a list prints as its elements' `repr` in brackets. */
  function Format(v: Value): string {
    match v
    case Atom(x) => Show(x)
    case Items(xs) => ListRepr(xs)
  }

  /** The fragment generators of the form-key table. */
  datatype GenKind = PosSql | StrSql | NumericSql | BandListSql | DatetimeSql | PolSql | PubSql | ScienceSql

  /** A generator run: kind, column, value to fragment (`""` for none). */
  type Generator = (GenKind, string, Value) -> string

  /** An entry of the form-key table: the payload keyword, the ObsCore
      column, and the generator. */
  datatype FormKey = FormKey(keyword: string, column: string, gen: GenKind)

  /** The form-key table, its sections flattened in order. */
  const AlmaFormKeys: seq<FormKey> := [
    // Position
    FormKey("source_name_resolver", "SkyCoord.from_name", PosSql),
    FormKey("source_name_alma", "target_name", StrSql),
    FormKey("ra_dec", "s_ra, s_dec", PosSql),
    FormKey("galactic", "gal_longitude, gal_latitude", PosSql),
    FormKey("spatial_resolution", "spatial_resolution", NumericSql),
    FormKey("spatial_scale_max", "spatial_scale_max", NumericSql),
    FormKey("fov", "s_fov", NumericSql),
    // Energy
    FormKey("frequency", "frequency", NumericSql),
    FormKey("bandwidth", "bandwidth", NumericSql),
    FormKey("spectral_resolution", "spectral_resolution", NumericSql),
    FormKey("em_resolution", "em_resolution", NumericSql),
    FormKey("band_list", "band_list", BandListSql),
    // Time
    FormKey("start_date", "t_min", DatetimeSql),
    FormKey("integration_time", "t_exptime", NumericSql),
    // Polarization
    FormKey("polarisation_type", "pol_states", PolSql),
    // Observation
    FormKey("line_sensitivity", "sensitivity_10kms", NumericSql),
    FormKey("continuum_sensitivity", "cont_sensitivity_bandwidth", NumericSql),
    FormKey("water_vapour", "pvw", NumericSql),
    // Project
    FormKey("project_code", "proposal_id", StrSql),
    FormKey("project_title", "obs_title", StrSql),
    FormKey("pi_name", "pi_name", StrSql),
    FormKey("proposal_authors", "proposal_authors", StrSql),
    FormKey("project_abstract", "proposal_abstract", StrSql),
    FormKey("publication_count", "NA", StrSql),
    FormKey("science_keyword", "science_keyword", StrSql),
    // Publication
    FormKey("bibcode", "bib_reference", StrSql),
    FormKey("pub_title", "pub_title", StrSql),
    FormKey("first_author", "first_author", StrSql),
    FormKey("authors", "authors", StrSql),
    FormKey("pub_abstract", "pub_abstract", StrSql),
    FormKey("publication_year", "pub_year", NumericSql),
    // Options
    FormKey("public_data", "data_rights", PubSql),
    FormKey("science_observation", "science_observation", ScienceSql)
  ]

  const SelectAll: string := "select * from ivoa.obscore"

  // ---------------------------------------------------------------------------
  // The reference definition of _gen_sql

  /** `constraint in attrib`: the constraint is the keyword or the column. */
  predicate Hits(c: string, f: FormKey) {
    f.keyword == c || f.column == c
  }

  /** How many table entries a constraint names. */
  function MatchCount(c: string, forms: seq<FormKey>): nat {
    if |forms| == 0 then 0
    else MatchCount(c, forms[..|forms| - 1]) + (if Hits(c, forms[|forms| - 1]) then 1 else 0)
  }

  /** The non-empty fragments one constraint generates, in table order. */
  function KeyFragments(c: string, v: Value, forms: seq<FormKey>, gen: Generator): (fs: seq<string>)
    ensures forall k :: 0 <= k < |fs| ==> fs[k] != ""
  {
    if |forms| == 0 then []
    else
      var f := forms[|forms| - 1];
      var frag := gen(f.gen, f.column, v);
      KeyFragments(c, v, forms[..|forms| - 1], gen) + (if Hits(c, f) && frag != "" then [frag] else [])
  }

  /** The non-empty fragments of a whole payload, in payload order. */
  function Fragments(payload: Dict<Value>, forms: seq<FormKey>, gen: Generator): (fs: seq<string>)
    ensures forall k :: 0 <= k < |fs| ==> fs[k] != ""
  {
    if |payload| == 0 then []
    else
      var last := payload[|payload| - 1];
      Fragments(payload[..|payload| - 1], forms, gen) + KeyFragments(last.0, last.1, forms, gen)
  }

  /** The first constraint that names two table entries: the second `pop`
      of it fails. */
  function FirstDouble(payload: Dict<Value>, forms: seq<FormKey>): Option<string> {
    if |payload| == 0 then None
    else
      var init := FirstDouble(payload[..|payload| - 1], forms);
      if init.Some? then init
      else if MatchCount(payload[|payload| - 1].0, forms) >= 2 then Some(payload[|payload| - 1].0)
      else None
  }

  /** The constraints that name no table entry, in payload order. */
  function Unused(payload: Dict<Value>, forms: seq<FormKey>): Dict<Value> {
    if |payload| == 0 then []
    else
      var last := payload[|payload| - 1];
      Unused(payload[..|payload| - 1], forms) + (if MatchCount(last.0, forms) == 0 then [last] else [])
  }

  /** `f'{p} -> {unused_payload[p]}'` for every left-over constraint. */
  function Render(d: Dict<Value>): seq<string> {
    seq(|d|, k requires 0 <= k < |d| => d[k].0 + " -> " + Format(d[k].1))
  }

  /** ` WHERE ` and the fragments joined by ` AND `, or nothing. */
  function WhereText(fs: seq<string>): string {
    if |fs| == 0 then "" else " WHERE " + Join(" AND ", fs)
  }

  datatype SqlError =
    /** A constraint named two table entries. */
    | KeyError(key: string)
    /** Constraints naming no table entry, rendered with their values. */
    | UnsupportedArguments(remaining: seq<string>)

  /** What `_gen_sql` computes. */
  function GenSqlSpec(payload: Dict<Value>, forms: seq<FormKey>, gen: Generator): Result<string, SqlError> {
    match FirstDouble(payload, forms)
    case Some(c) => Failure(KeyError(c))
    case None =>
      var unused := Unused(payload, forms);
      if |unused| > 0 then Failure(UnsupportedArguments(Render(unused)))
      else Success(SelectAll + WhereText(Fragments(payload, forms, gen)))
  }

  /** The query always selects from the ObsCore table; ` WHERE ` is added
      exactly when some fragment is non-empty; and a constraint naming no
      entry is refused unless an earlier one names two. */
  lemma GenSqlShape(payload: Dict<Value>, forms: seq<FormKey>, gen: Generator)
    ensures var r := GenSqlSpec(payload, forms, gen);
      && (r.Success? ==> StartsWith(r.value, SelectAll))
      && (r.Success? ==> (r.value == SelectAll <==> |Fragments(payload, forms, gen)| == 0))
      && (r.Success? && |Fragments(payload, forms, gen)| > 0 ==>
            r.value == SelectAll + " WHERE " + Join(" AND ", Fragments(payload, forms, gen)))
      && (FirstDouble(payload, forms).None? ==>
            (r.Failure? <==> exists k :: 0 <= k < |payload| && MatchCount(payload[k].0, forms) == 0))
  {
    var r := GenSqlSpec(payload, forms, gen);
    if r.Success? {
      assert r.value[..|SelectAll|] == SelectAll;
    }
    UnusedSpec(payload, forms);
  }

  /** A constraint is left over exactly when it names no entry. */
  lemma {:induction false} UnusedSpec(payload: Dict<Value>, forms: seq<FormKey>)
    ensures |Unused(payload, forms)| > 0 <==> exists k :: 0 <= k < |payload| && MatchCount(payload[k].0, forms) == 0
  {
    if |payload| > 0 {
      var init := payload[..|payload| - 1];
      UnusedSpec(init, forms);
      assert forall k :: 0 <= k < |init| ==> init[k] == payload[k];
      if exists k :: 0 <= k < |payload| && MatchCount(payload[k].0, forms) == 0 {
        var k :| 0 <= k < |payload| && MatchCount(payload[k].0, forms) == 0;
        if k < |init| {
          assert MatchCount(init[k].0, forms) == 0;
        }
      }
    }
  }

  // ---------------------------------------------------------------------------
  // _gen_sql as the source computes it

  lemma WhereStep(fs: seq<string>, f: string)
    requires f != "" && forall k :: 0 <= k < |fs| ==> fs[k] != ""
    ensures WhereText(fs) != "" <==> |fs| > 0
    ensures WhereText(fs + [f]) == if WhereText(fs) != "" then WhereText(fs) + " AND " + f else " WHERE " + f
  {
    if |fs| > 0 {
      JoinAppend(" AND ", fs, f);
    } else {
      assert fs + [f] == [f];
    }
  }

  lemma {:induction false} MatchCountPrefix(c: string, forms: seq<FormKey>, j: nat)
    requires j <= |forms|
    ensures MatchCount(c, forms[..j]) <= MatchCount(c, forms)
    decreases |forms|
  {
    if j < |forms| {
      MatchCountPrefix(c, forms[..|forms| - 1], j);
      assert forms[..|forms| - 1][..j] == forms[..j];
    } else {
      assert forms[..j] == forms;
    }
  }

  lemma {:induction false} FirstDoublePrefix(payload: Dict<Value>, forms: seq<FormKey>, i: nat)
    requires i <= |payload| && FirstDouble(payload[..i], forms).Some?
    ensures FirstDouble(payload, forms) == FirstDouble(payload[..i], forms)
    decreases |payload|
  {
    if i < |payload| {
      assert payload[..|payload| - 1][..i] == payload[..i];
      FirstDoublePrefix(payload[..|payload| - 1], forms, i);
    } else {
      assert payload[..i] == payload;
    }
  }

  lemma {:induction false} UnusedKeys(payload: Dict<Value>, forms: seq<FormKey>, c: string)
    requires c !in Keys(payload)
    ensures c !in Keys(Unused(payload, forms))
  {
    if |payload| > 0 {
      var init := payload[..|payload| - 1];
      var last := payload[|payload| - 1];
      assert payload == init + [last];
      KeysAppend(init, [last]);
      UnusedKeys(init, forms, c);
      KeysAppend(Unused(init, forms), if MatchCount(last.0, forms) == 0 then [last] else []);
    }
  }

  /** The key at position `i` of a dictionary occurs nowhere else. */
  lemma KeyOnce(payload: Dict<Value>, i: nat)
    requires ValidDict(payload) && i < |payload|
    ensures payload[i].0 !in Keys(payload[..i]) && payload[i].0 !in Keys(payload[i + 1..])
  {
    var ks := Keys(payload);
    KeysIndex(payload);
    KeysIndex(payload[..i]);
    KeysIndex(payload[i + 1..]);
    if payload[i].0 in Keys(payload[..i]) {
      var m :| 0 <= m < i && Keys(payload[..i])[m] == payload[i].0;
      NoDupDistinct(ks, m, i);
    }
    if payload[i].0 in Keys(payload[i + 1..]) {
      var m :| 0 <= m < |payload| - i - 1 && Keys(payload[i + 1..])[m] == payload[i].0;
      NoDupDistinct(ks, i, i + 1 + m);
    }
  }

  /** One more table entry scanned. */
  lemma FormsStep(c: string, v: Value, forms: seq<FormKey>, j: nat, gen: Generator)
    requires j < |forms|
    ensures var f := forms[j]; var frag := gen(f.gen, f.column, v);
      && KeyFragments(c, v, forms[..j + 1], gen)
         == KeyFragments(c, v, forms[..j], gen) + (if Hits(c, f) && frag != "" then [frag] else [])
      && MatchCount(c, forms[..j + 1]) == MatchCount(c, forms[..j]) + (if Hits(c, f) then 1 else 0)
  {
    assert forms[..j + 1][..j] == forms[..j];
  }

  /** One more constraint of the payload handled. */
  lemma PayloadStep(payload: Dict<Value>, forms: seq<FormKey>, i: nat, gen: Generator)
    requires i < |payload|
    ensures var e := payload[i]; var before := payload[..i]; var after := payload[..i + 1];
      && Fragments(after, forms, gen) == Fragments(before, forms, gen) + KeyFragments(e.0, e.1, forms, gen)
      && Unused(after, forms) == Unused(before, forms) + (if MatchCount(e.0, forms) == 0 then [e] else [])
      && FirstDouble(after, forms) == if FirstDouble(before, forms).Some? then FirstDouble(before, forms)
                                      else if MatchCount(e.0, forms) >= 2 then Some(e.0) else None
  {
    assert payload[..i + 1][..i] == payload[..i];
  }

  /** The inner loop of `_gen_sql` for one constraint `c` with value `v`:
      every table entry it names appends its fragment to `where` and pops
      `c` from the copy of the payload; a second pop fails. */
  method ScanForms(c: string, v: Value, forms: seq<FormKey>, gen: Generator, where: string,
                   done: seq<string>, head: Dict<Value>, tail: Dict<Value>)
    returns (where': string, unused': Dict<Value>, failed: bool)
    requires where == WhereText(done) && forall k :: 0 <= k < |done| ==> done[k] != ""
    requires c !in Keys(head) && c !in Keys(tail)
    ensures failed <==> MatchCount(c, forms) >= 2
    ensures !failed ==> where' == WhereText(done + KeyFragments(c, v, forms, gen))
    ensures !failed ==> unused' == head + (if MatchCount(c, forms) == 1 then [] else [(c, v)]) + tail
  {
    where' := where;
    unused' := head + [(c, v)] + tail;
    var popped := false;
    var j := 0;
    assert forms[..0] == [] && done + [] == done;
    while j < |forms|
      invariant 0 <= j <= |forms|
      invariant MatchCount(c, forms[..j]) == if popped then 1 else 0
      invariant where' == WhereText(done + KeyFragments(c, v, forms[..j], gen))
      invariant unused' == head + (if popped then [] else [(c, v)]) + tail
    {
      where', unused', popped, failed := ScanOne(c, v, forms, j, gen, done, head, tail, where', unused', popped);
      if failed {
        MatchCountPrefix(c, forms, j + 1);
        return;
      }
      j := j + 1;
    }
    assert forms[..|forms|] == forms;
    failed := false;
  }

  /** One table entry scanned: a hit appends the fragment and pops `c`, or
      fails when `c` was popped already. */
  method ScanOne(c: string, v: Value, forms: seq<FormKey>, j: nat, gen: Generator, done: seq<string>,
                 head: Dict<Value>, tail: Dict<Value>, where: string, unused: Dict<Value>, popped: bool)
    returns (where': string, unused': Dict<Value>, popped': bool, failed: bool)
    requires j < |forms| && forall k :: 0 <= k < |done| ==> done[k] != ""
    requires c !in Keys(head) && c !in Keys(tail)
    requires MatchCount(c, forms[..j]) == if popped then 1 else 0
    requires where == WhereText(done + KeyFragments(c, v, forms[..j], gen))
    requires unused == head + (if popped then [] else [(c, v)]) + tail
    ensures failed <==> MatchCount(c, forms[..j + 1]) >= 2
    ensures !failed ==> MatchCount(c, forms[..j + 1]) == (if popped' then 1 else 0)
    ensures !failed ==> where' == WhereText(done + KeyFragments(c, v, forms[..j + 1], gen))
    ensures !failed ==> unused' == head + (if popped' then [] else [(c, v)]) + tail
  {
    ScanStep(c, v, forms, j, gen, done, where);
    where', unused', popped', failed := where, unused, popped, false;
    var f := forms[j];
    if Hits(c, f) {
      where' := AddWhere(where, gen(f.gen, f.column, v));
      UnusedHolds(c, v, head, tail, popped);
      if c !in Keys(unused) {
        failed := true;
        return;
      }
      unused' := Del(unused, c);
      popped' := true;
    }
  }

  /** The copy of the payload still holds `c` exactly while it is not
      popped, and popping it leaves the rest. */
  lemma UnusedHolds(c: string, v: Value, head: Dict<Value>, tail: Dict<Value>, popped: bool)
    requires c !in Keys(head) && c !in Keys(tail)
    ensures var unused := head + (if popped then [] else [(c, v)]) + tail;
      && (c in Keys(unused) <==> !popped)
      && (!popped ==> Del(unused, c) == head + tail)
  {
    KeysAppend(head, if popped then [] else [(c, v)]);
    KeysAppend(head + (if popped then [] else [(c, v)]), tail);
    if !popped {
      DelMiddle(head, (c, v), tail);
    }
  }

  /** The source's `where` update for one generated fragment: an empty
      fragment changes nothing, the first one opens ` WHERE `, later ones
      are joined with ` AND `. */
  function AddWhere(where: string, frag: string): (r: string)
    ensures frag == "" ==> r == where
    ensures frag != "" ==> EndsWith(r, frag) && |r| > |frag|
    ensures frag != "" && where != "" ==> StartsWith(r, where)
    ensures frag != "" && where == "" ==> StartsWith(r, " WHERE ")
  {
    if frag == "" then where
    else if where != "" then where + " AND " + frag
    else " WHERE " + frag
  }

  /** One table entry scanned keeps `where` equal to the reference text. */
  lemma ScanStep(c: string, v: Value, forms: seq<FormKey>, j: nat, gen: Generator, done: seq<string>, where: string)
    requires j < |forms| && forall k :: 0 <= k < |done| ==> done[k] != ""
    requires where == WhereText(done + KeyFragments(c, v, forms[..j], gen))
    ensures var f := forms[j];
      && (Hits(c, f) ==> AddWhere(where, gen(f.gen, f.column, v)) == WhereText(done + KeyFragments(c, v, forms[..j + 1], gen)))
      && (!Hits(c, f) ==> where == WhereText(done + KeyFragments(c, v, forms[..j + 1], gen)))
      && MatchCount(c, forms[..j + 1]) == MatchCount(c, forms[..j]) + (if Hits(c, f) then 1 else 0)
  {
    FormsStep(c, v, forms, j, gen);
    var before := KeyFragments(c, v, forms[..j], gen);
    var after := KeyFragments(c, v, forms[..j + 1], gen);
    var f := forms[j];
    var frag := gen(f.gen, f.column, v);
    if Hits(c, f) && frag != "" {
      assert after == before + [frag];
      assert done + after == (done + before) + [frag];
      WhereStep(done + before, frag);
    } else {
      assert after == before;
    }
  }

  /** `_gen_sql`: for every constraint, scan the table; what is left over in
      the copy of the payload is refused. */
  method GenSql(payload: Dict<Value>, forms: seq<FormKey>, gen: Generator) returns (r: Result<string, SqlError>)
    requires ValidDict(payload)
    ensures r == GenSqlSpec(payload, forms, gen)
  {
    var where := "";
    var unused := payload;
    var i := 0;
    while i < |payload|
      invariant 0 <= i <= |payload|
      invariant FirstDouble(payload[..i], forms).None?
      invariant where == WhereText(Fragments(payload[..i], forms, gen))
      invariant unused == Unused(payload[..i], forms) + payload[i..]
    {
      var failed;
      where, unused, failed := HandleConstraint(payload, forms, gen, i, where, unused);
      if failed {
        return Failure(KeyError(payload[i].0));
      }
      i := i + 1;
    }
    assert payload[..|payload|] == payload;
    assert payload[|payload|..] == [];
    assert unused == Unused(payload, forms);
    assert FirstDouble(payload, forms).None?;
    if |unused| > 0 {
      return Failure(UnsupportedArguments(Render(unused)));
    }
    return Success(SelectAll + where);
  }

  /** One constraint of the payload handled by the outer loop of `_gen_sql`. */
  method HandleConstraint(payload: Dict<Value>, forms: seq<FormKey>, gen: Generator, i: nat,
                          where: string, unused: Dict<Value>)
    returns (where': string, unused': Dict<Value>, failed: bool)
    requires ValidDict(payload) && i < |payload|
    requires FirstDouble(payload[..i], forms).None?
    requires where == WhereText(Fragments(payload[..i], forms, gen))
    requires unused == Unused(payload[..i], forms) + payload[i..]
    ensures failed ==> FirstDouble(payload, forms) == Some(payload[i].0)
    ensures !failed ==> FirstDouble(payload[..i + 1], forms).None?
    ensures !failed ==> where' == WhereText(Fragments(payload[..i + 1], forms, gen))
    ensures !failed ==> unused' == Unused(payload[..i + 1], forms) + payload[i + 1..]
  {
    var c, v := payload[i].0, payload[i].1;
    var before := payload[..i];
    PayloadStep(payload, forms, i, gen);
    KeyOnce(payload, i);
    UnusedKeys(before, forms, c);
    assert payload[i..] == [(c, v)] + payload[i + 1..];
    where', unused', failed := ScanForms(c, v, forms, gen, where, Fragments(before, forms, gen),
                                         Unused(before, forms), payload[i + 1..]);
    if failed {
      FirstDoublePrefix(payload, forms, i + 1);
    }
  }

  /** An empty payload selects everything. */
  lemma EmptyPayload(forms: seq<FormKey>, gen: Generator)
    ensures GenSqlSpec([], forms, gen) == Success(SelectAll)
  {
    assert SelectAll + "" == SelectAll;
  }

  // ---------------------------------------------------------------------------
  // query_async

  /** `str()` of each element. */
  function Shown(xs: seq<Scalar>): (r: seq<string>)
    ensures |r| == |xs| && forall k :: 0 <= k < |xs| ==> r[k] == Show(xs[k])
  {
    seq(|xs|, k requires 0 <= k < |xs| => Show(xs[k]))
  }

  /** A keyword argument's value as it enters the payload: a list for
      `band_list` becomes one text, its elements joined by spaces (see
      `BandListRoundTrip`); anything else is kept. */
  function KwargValue(arg: string, value: Value): (v: Value)
    ensures arg != "band_list" || value.Atom? ==> v == value
    ensures arg == "band_list" && value.Items? ==> v.Atom? && v.x.Str?
  {
    if arg == "band_list" && value.Items? then Atom(Str(Join(" ", Shown(value.xs))))
    else value
  }

  /** Splitting the `band_list` text at its spaces gives back the bands, as
      long as no band's text holds a space. */
  lemma BandListRoundTrip(xs: seq<Scalar>)
    requires |xs| > 0 && forall k :: 0 <= k < |xs| ==> ' ' !in Show(xs[k])
    ensures Split(KwargValue("band_list", Items(xs)).x.s, ' ') == Shown(xs)
  {
    SplitJoin(Shown(xs), ' ');
  }

  /** The value under a key once an argument is merged into it: appended to
      an existing value with one space, or set. */
  function Combined(prior: Option<Value>, arg: string, value: Value): Value {
    match prior
    case Some(o) => Atom(Str(Format(o) + " " + Format(KwargValue(arg, value))))
    case None => KwargValue(arg, value)
  }

  /** One keyword argument merged into the payload. */
  function MergeOne(payload: Dict<Value>, arg: string, value: Value): (p: Dict<Value>)
    ensures forall k :: Get(p, k) == if k == arg then Some(Combined(Get(payload, arg), arg, value)) else Get(payload, k)
    ensures Keys(p) == if arg in Keys(payload) then Keys(payload) else Keys(payload) + [arg]
  {
    Put(payload, arg, Combined(Get(payload, arg), arg, value))
  }

  /** The keyword arguments merged in order. */
  function MergeKwargs(payload: Dict<Value>, kwargs: Dict<Value>): Dict<Value>
    decreases |kwargs|
  {
    if |kwargs| == 0 then payload
    else MergeKwargs(MergeOne(payload, kwargs[0].0, kwargs[0].1), kwargs[1..])
  }

  /** Every key of the keyword arguments ends up combined with what the
      payload held; other keys are untouched. */
  lemma {:induction false} MergeKwargsGet(payload: Dict<Value>, kwargs: Dict<Value>, k: string)
    requires ValidDict(kwargs)
    ensures Get(MergeKwargs(payload, kwargs), k) ==
            match Get(kwargs, k)
            case None => Get(payload, k)
            case Some(v) => Some(Combined(Get(payload, k), k, v))
    decreases |kwargs|
  {
    if |kwargs| > 0 {
      var a := kwargs[0].0;
      assert Keys(kwargs) == [a] + Keys(kwargs[1..]);
      MergeKwargsGet(MergeOne(payload, a, kwargs[0].1), kwargs[1..], k);
      if k == a {
        assert Get(kwargs[1..], k).None?;
      }
    }
  }

  /** Merging keeps every key once. */
  lemma {:induction false} MergeKwargsValid(payload: Dict<Value>, kwargs: Dict<Value>)
    requires ValidDict(payload)
    ensures ValidDict(MergeKwargs(payload, kwargs))
    decreases |kwargs|
  {
    if |kwargs| > 0 {
      PutDelValid(payload, kwargs[0].0, Combined(Get(payload, kwargs[0].0), kwargs[0].0, kwargs[0].1));
      MergeKwargsValid(MergeOne(payload, kwargs[0].0, kwargs[0].1), kwargs[1..]);
    }
  }

  /** The payload `query_async` hands to `_gen_sql`: the caller's payload
      (none is an empty one), the keyword arguments merged in, then the
      `science` and `public` flags unless they are `None`. */
  function QueryPayload(payload: Option<Dict<Value>>, kwargs: Dict<Value>,
                        public: Option<Scalar>, science: Option<Scalar>): Dict<Value> {
    var p := MergeKwargs(payload.GetOr([]), kwargs);
    var p := if science.Some? then Put(p, "science_observation", Atom(science.value)) else p;
    if public.Some? then Put(p, "public_data", Atom(public.value)) else p
  }

  /** The flags win over the same-named keyword arguments; every other key
      holds its merged value. */
  lemma QueryPayloadGet(payload: Option<Dict<Value>>, kwargs: Dict<Value>,
                        public: Option<Scalar>, science: Option<Scalar>, k: string)
    requires ValidDict(kwargs)
    ensures var p := QueryPayload(payload, kwargs, public, science);
      && (public.Some? ==> Get(p, "public_data") == Some(Atom(public.value)))
      && (science.Some? ==> Get(p, "science_observation") == Some(Atom(science.value)))
      && (k != "public_data" && k != "science_observation" ==>
            Get(p, k) == match Get(kwargs, k)
                         case None => Get(payload.GetOr([]), k)
                         case Some(v) => Some(Combined(Get(payload.GetOr([]), k), k, v)))
  {
    QueryPayloadFlags(payload, kwargs, public, science, k);
    MergeKwargsGet(payload.GetOr([]), kwargs, k);
  }

  /** The flags are set last; every other key keeps its merged value. */
  lemma QueryPayloadFlags(payload: Option<Dict<Value>>, kwargs: Dict<Value>,
                          public: Option<Scalar>, science: Option<Scalar>, k: string)
    ensures var p := QueryPayload(payload, kwargs, public, science);
      && (public.Some? ==> Get(p, "public_data") == Some(Atom(public.value)))
      && (science.Some? ==> Get(p, "science_observation") == Some(Atom(science.value)))
      && (k != "public_data" && k != "science_observation" ==>
            Get(p, k) == Get(MergeKwargs(payload.GetOr([]), kwargs), k))
  {
  }

  /** The payload stays a dictionary, so `_gen_sql` can run on it. */
  lemma QueryPayloadValid(payload: Option<Dict<Value>>, kwargs: Dict<Value>,
                          public: Option<Scalar>, science: Option<Scalar>)
    requires payload.Some? ==> ValidDict(payload.value)
    ensures ValidDict(QueryPayload(payload, kwargs, public, science))
  {
    var base := payload.GetOr([]);
    MergeKwargsValid(base, kwargs);
    var p := MergeKwargs(base, kwargs);
    PutDelValid(p, "science_observation", Atom(Bool(true)));
    if science.Some? {
      PutDelValid(p, "science_observation", Atom(science.value));
      p := Put(p, "science_observation", Atom(science.value));
    }
    if public.Some? {
      PutDelValid(p, "public_data", Atom(public.value));
    }
  }

  /** `query_async` up to the query text: the merged payload through
      `_gen_sql` with the form-key table. */
  method QueryAsync(payload: Option<Dict<Value>>, kwargs: Dict<Value>,
                    public: Option<Scalar>, science: Option<Scalar>, gen: Generator)
    returns (r: Result<string, SqlError>, callerPayload: Option<Dict<Value>>)
    requires payload.Some? ==> ValidDict(payload.value)
    ensures r == GenSqlSpec(QueryPayload(payload, kwargs, public, science), AlmaFormKeys, gen)
    ensures callerPayload.None? <==> payload.None?
    ensures callerPayload.Some? ==> callerPayload.value == QueryPayload(payload, kwargs, public, science)
  {
    QueryPayloadValid(payload, kwargs, public, science);
    var merged := QueryPayload(payload, kwargs, public, science);
    r := GenSql(merged, AlmaFormKeys, gen);
    callerPayload := if payload.Some? then Some(merged) else None;
  }

  /** The caller's payload dictionary is updated in place, so handing the
      same dictionary to a second query with the same text argument `k`
      leaves that argument written twice, separated by a space. */
  lemma ReusedPayloadRepeats(d: Dict<Value>, kwargs: Dict<Value>, k: string, s: string,
                             public: Option<Scalar>, science: Option<Scalar>)
    requires ValidDict(d) && ValidDict(kwargs)
    requires Get(d, k).None? && Get(kwargs, k) == Some(Atom(Str(s)))
    requires k != "public_data" && k != "science_observation"
    ensures var once := QueryPayload(Some(d), kwargs, public, science);
      && Get(once, k) == Some(Atom(Str(s)))
      && Get(QueryPayload(Some(once), kwargs, public, science), k) == Some(Atom(Str(s + " " + s)))
  {
    var once := QueryPayload(Some(d), kwargs, public, science);
    QueryPayloadGet(Some(d), kwargs, public, science, k);
    QueryPayloadGet(Some(once), kwargs, public, science, k);
  }
}
