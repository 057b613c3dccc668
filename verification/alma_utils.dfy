/**
 Small helpers of the ALMA client: the file-name form of an ALMA uid and
 back, order-preserving de-duplication, the project-id check in front of the
 project-metadata query, and the flattening of a product tree (the JSON of
 the request handler) into table rows.
 */
module AlmaUtils {
  import opened Wrappers
  import opened PyText
  import opened PyDict

  // ---------------------------------------------------------------------------
  // clean_uid and reform_uid

  /** The character `clean_uid` puts in place of `c`. */
  function CleanChar(c: char): char {
    if c == '/' || c == ':' then '_' else c
  }

  /** `clean_uid` for a text uid: `/` and `:` become `_`, one character at
      a time (the two `replace` calls of the source in one pass). */
  function CleanUid(uid: string): (r: string)
    ensures |r| == |uid| && '/' !in r && ':' !in r
    ensures forall k :: 0 <= k < |uid| && uid[k] != '/' && uid[k] != ':' ==> r[k] == uid[k]
  {
    seq(|uid|, k requires 0 <= k < |uid| => CleanChar(uid[k]))
  }

  /** Cleaning is the two replacements of the source. */
  lemma CleanUidIsReplace(uid: string)
    ensures CleanUid(uid) == Replace(Replace(uid, '/', '_'), ':', '_')
  {
  }

  /** Python's `s[:n]` and `s[n:]` for `n >= 0`, which clamp at the end. */
  function Prefix(s: string, n: nat): string {
    if n <= |s| then s[..n] else s
  }

  function Suffix(s: string, n: nat): string {
    if n <= |s| then s[n..] else ""
  }

  /** `reform_uid`: the three-letter scheme, `://`, and the rest from
      position 6 on with every `_` turned into `/`. */
  function ReformUid(uid: string): (r: string)
    ensures StartsWith(r, Prefix(uid, 3) + "://")
  {
    var head := Prefix(uid, 3) + "://";
    var r := head + Join("/", Split(Suffix(uid, 6), '_'));
    assert r[..|head|] == head;
    r
  }

  /** A uid of the form `uid://` followed by `/`-separated segments. */
  function UidOf(segments: seq<string>): string {
    "uid://" + Join("/", segments)
  }

  /** No segment holds a character that cleaning or splitting would touch. */
  predicate PlainSegments(segments: seq<string>) {
    forall k :: 0 <= k < |segments| ==> '_' !in segments[k] && '/' !in segments[k] && ':' !in segments[k]
  }

  /** Cleaning a joined sequence of plain segments joins them with `_`. */
  lemma {:induction false} CleanJoin(segments: seq<string>)
    requires PlainSegments(segments)
    ensures CleanUid(Join("/", segments)) == Join("_", segments)
  {
    if |segments| > 1 {
      CleanJoin(segments[1..]);
      var tail := Join("/", segments[1..]);
      CleanAppend(segments[0], "/" + tail);
      CleanAppend("/", tail);
      CleanPlain(segments[0]);
      assert CleanUid("/") == "_";
      assert Join("/", segments) == segments[0] + ("/" + tail);
      assert Join("_", segments) == segments[0] + ("_" + Join("_", segments[1..]));
    } else if |segments| == 1 {
      CleanPlain(segments[0]);
    }
  }

  lemma CleanAppend(a: string, b: string)
    ensures CleanUid(a + b) == CleanUid(a) + CleanUid(b)
  {
    var l, r := CleanUid(a + b), CleanUid(a) + CleanUid(b);
    assert forall k :: 0 <= k < |a| ==> (a + b)[k] == a[k];
    assert forall k :: |a| <= k < |a + b| ==> (a + b)[k] == b[k - |a|];
    assert |l| == |r|;
    forall k | 0 <= k < |l| ensures l[k] == r[k] {
      if k < |a| {
        assert r[k] == CleanUid(a)[k];
      } else {
        assert r[k] == CleanUid(b)[k - |a|];
      }
    }
  }

  lemma CleanPlain(s: string)
    requires '/' !in s && ':' !in s
    ensures CleanUid(s) == s
  {
  }

  /** The round trip: the file-name form of a uid made of plain segments
      turns back into the uid. */
  lemma UidRoundTrip(segments: seq<string>)
    requires PlainSegments(segments)
    ensures ReformUid(CleanUid(UidOf(segments))) == UidOf(segments)
  {
    CleanAppend("uid://", Join("/", segments));
    CleanJoin(segments);
    var clean := CleanUid(UidOf(segments));
    assert CleanUid("uid://") == "uid___";
    assert clean == "uid___" + Join("_", segments);
    assert Prefix(clean, 3) == "uid";
    assert Suffix(clean, 6) == Join("_", segments);
    if |segments| == 0 {
      assert Split("", '_') == [""];
    } else {
      SplitJoin(segments, '_');
    }
  }

  // ---------------------------------------------------------------------------
  // unique

  /** The elements of `xs` at their first occurrence, in order. */
  function FirstOccurrences<T(==, !new)>(xs: seq<T>): (r: seq<T>)
    ensures forall x :: x in r <==> x in xs
  {
    if |xs| == 0 then []
    else
      var init := FirstOccurrences(xs[..|xs| - 1]);
      var last := xs[|xs| - 1];
      assert xs == xs[..|xs| - 1] + [last];
      if last in xs[..|xs| - 1] then init else init + [last]
  }

  /** No element is kept twice. */
  lemma {:induction false} FirstOccurrencesNoDup<T(!new)>(xs: seq<T>)
    ensures NoDup(FirstOccurrences(xs))
  {
    if |xs| > 0 {
      var init := xs[..|xs| - 1];
      FirstOccurrencesNoDup(init);
      if xs[|xs| - 1] !in init {
        AppendFreshNoDup(FirstOccurrences(init), xs[|xs| - 1]);
      }
    }
  }

  /** A repetition-free list is kept as it is. */
  lemma {:induction false} FirstOccurrencesOfNoDup<T(!new)>(xs: seq<T>)
    requires NoDup(xs)
    ensures FirstOccurrences(xs) == xs
  {
    if |xs| > 0 {
      var init := xs[..|xs| - 1];
      NoDupInit(xs);
      FirstOccurrencesOfNoDup(init);
      assert xs == init + [xs[|xs| - 1]];
    }
  }

  lemma {:induction false} NoDupInit<T>(xs: seq<T>)
    requires NoDup(xs) && |xs| > 0
    ensures NoDup(xs[..|xs| - 1]) && xs[|xs| - 1] !in xs[..|xs| - 1]
  {
    if |xs| > 1 {
      NoDupInit(xs[1..]);
      assert xs[1..][..|xs| - 2] == xs[..|xs| - 1][1..];
      assert xs[..|xs| - 1] == [xs[0]] + xs[1..][..|xs| - 2];
      assert xs[|xs| - 1] in xs[1..];
    }
  }

  /** `unique`: one pass with a set of the elements seen so far. */
  method Unique<T(==, !new)>(xs: seq<T>) returns (r: seq<T>)
    ensures r == FirstOccurrences(xs)
    ensures NoDup(r) && forall x :: x in r <==> x in xs
  {
    r := [];
    var seen: set<T> := {};
    var i := 0;
    while i < |xs|
      invariant 0 <= i <= |xs|
      invariant r == FirstOccurrences(xs[..i])
      invariant forall x :: x in seen <==> x in xs[..i]
    {
      assert xs[..i + 1][..i] == xs[..i];
      if xs[i] !in seen {
        r := r + [xs[i]];
        seen := seen + {xs[i]};
      }
      i := i + 1;
    }
    assert xs[..|xs|] == xs;
    FirstOccurrencesNoDup(xs);
  }

  // ---------------------------------------------------------------------------
  // get_project_metadata

  datatype MetadataError = WrongLength | WrongFormat | NoRows

  /** A project code such as `2013.1.00123.S`: fourteen characters with a
      dot at positions 4, 6 and 12. */
  predicate ValidProjectId(id: string) {
    |id| == 14 && id[4] == '.' && id[6] == '.' && id[12] == '.'
  }

  /** The query for a project's abstract. */
  function ProjectQuery(id: string): string {
    "select distinct proposal_abstract from ivoa.obscore where proposal_id='" + id + "'"
  }

  /** A metadata request: its answer and the query sent, if any. */
  datatype MetadataCall = MetadataCall(result: Result<seq<string>, MetadataError>, query: Option<string>)

  /** `get_project_metadata`, with the TAP service as the abstracts it
      returns for a query. */
  function GetProjectMetadata(id: string, tap: string -> seq<string>): (c: MetadataCall)
    ensures c.query.Some? <==> ValidProjectId(id)
    ensures c.query.Some? ==> c.query.value == ProjectQuery(id)
    ensures |id| != 14 ==> c.result == Failure(WrongLength)
    ensures |id| == 14 && !ValidProjectId(id) ==> c.result == Failure(WrongFormat)
    ensures c.result.Failure? && c.query.Some? ==> c.result.error == NoRows && |tap(c.query.value)| == 0
    ensures c.result.Success? ==> c.query.Some? && |tap(c.query.value)| > 0 && c.result.value == [tap(c.query.value)[0]]
  {
    if |id| != 14 then MetadataCall(Failure(WrongLength), None)
    else if !(id[4] == id[6] == id[12] == '.') then MetadataCall(Failure(WrongFormat), None)
    else
      var q := ProjectQuery(id);
      var rows := tap(q);
      if |rows| == 0 then MetadataCall(Failure(NoRows), Some(q))
      else MetadataCall(Success([rows[0]]), Some(q))
  }

  /** The query names exactly the project asked for. */
  lemma ProjectQueryInjective(a: string, b: string)
    ensures ProjectQuery(a) == ProjectQuery(b) <==> a == b
  {
    if ProjectQuery(a) == ProjectQuery(b) {
      var n := |"select distinct proposal_abstract from ivoa.obscore where proposal_id='"|;
      assert |a| == |b|;
      assert ProjectQuery(a)[n..n + |a|] == a;
      assert ProjectQuery(b)[n..n + |b|] == b;
    }
  }

  // ---------------------------------------------------------------------------
  // uid_json_to_table

  /** A JSON value in an item, `null` included. */
  datatype JValue = JNull | JScalar(x: Scalar)

  /** An item of the product tree: its `children` and `allMousUids` lists,
      and its other keys in order (`type` among them). */
  datatype Item = Item(fields: Dict<JValue>, children: seq<Item>, allMousUids: seq<string>)

  /** `item['type'] in productlist`; a missing or non-text type is no
      product. The source would raise on a missing `type`. */
  predicate IsProduct(item: Item, productlist: seq<string>) {
    match Get<JValue>(item.fields, "type")
    case Some(JScalar(Str(t))) => t in productlist
    case _ => false
  }

  /** The member OUS a level passes down: its only `allMousUids` entry. */
  function MousOf(item: Item): Option<string> {
    if |item.allMousUids| == 1 then Some(item.allMousUids[0]) else None
  }

  /** A collected product, with the `mous_uid` it was given. */
  datatype Product = Product(item: Item, mous: Option<string>)

  /** `flatten_jdata`: depth-first, a product is collected and not
      descended into; another item with children is descended into. */
  function Flatten(items: seq<Item>, mous: Option<string>, productlist: seq<string>): (rows: seq<Product>)
    ensures forall k :: 0 <= k < |rows| ==> IsProduct(rows[k].item, productlist)
    decreases items
  {
    if |items| == 0 then []
    else
      var item := items[0];
      var here :=
        if IsProduct(item, productlist) then [Product(item, mous)]
        else if |item.children| > 0 then Flatten(item.children, MousOf(item), productlist)
        else [];
      here + Flatten(items[1..], mous, productlist)
  }

  /** Flattening a list of levels is flattening each level in turn. */
  lemma {:induction false} FlattenAppend(a: seq<Item>, b: seq<Item>, mous: Option<string>, productlist: seq<string>)
    ensures Flatten(a + b, mous, productlist) == Flatten(a, mous, productlist) + Flatten(b, mous, productlist)
  {
    if |a| > 0 {
      assert (a + b)[0] == a[0] && (a + b)[1..] == a[1..] + b;
      FlattenAppend(a[1..], b, mous, productlist);
    } else {
      assert a + b == b;
    }
  }

  /** Items at the top level: products keep the given uid, and a product
      nested under a level with one member OUS gets that uid. */
  lemma FlattenNested(product: Item, parent: Item, uid: string, productlist: seq<string>)
    requires IsProduct(product, productlist) && !IsProduct(parent, productlist)
    requires parent.children == [product] && parent.allMousUids == [uid]
    ensures Flatten([parent], None, productlist) == [Product(product, Some(uid))]
  {
    assert Flatten([product], Some(uid), productlist) == [Product(product, Some(uid))];
  }

  /** Wherever it stands in a level, an item that is no product is replaced
      by the flattening of its children, under its own single member OUS
      when it has exactly one and under none otherwise; a childless one
      contributes nothing. */
  lemma FlattenDescends(before: seq<Item>, item: Item, after: seq<Item>, mous: Option<string>, productlist: seq<string>)
    requires !IsProduct(item, productlist)
    ensures var inner := if |item.allMousUids| == 1 then Some(item.allMousUids[0]) else None;
      Flatten(before + [item] + after, mous, productlist)
      == Flatten(before, mous, productlist) + Flatten(item.children, inner, productlist) + Flatten(after, mous, productlist)
  {
    FlattenAppend(before + [item], after, mous, productlist);
    FlattenAppend(before, [item], mous, productlist);
    FlattenOne(item, mous, productlist);
  }

  lemma FlattenOne(item: Item, mous: Option<string>, productlist: seq<string>)
    requires !IsProduct(item, productlist)
    ensures Flatten([item], mous, productlist) == Flatten(item.children, MousOf(item), productlist)
  {
    assert [item][1..] == [];
    if |item.children| == 0 {
      assert Flatten(item.children, MousOf(item), productlist) == [];
    }
  }

  /** A product hides what is below it. */
  lemma FlattenStopsAtProduct(product: Item, mous: Option<string>, productlist: seq<string>)
    requires IsProduct(product, productlist)
    ensures Flatten([product], mous, productlist) == [Product(product, mous)]
  {
  }

  datatype TableError = NoProducts | MissingKey(key: string)

  /** The row of a product: its keys with `mous_uid` set. */
  function RowOf(p: Product): Dict<JValue> {
    Put(p.item.fields, "mous_uid", match p.mous case None => JNull case Some(u) => JScalar(Str(u)))
  }

  /** A column: its name and one value per row. */
  datatype Column = Column(name: string, values: seq<JValue>)

  function ColumnOf(rows: seq<Dict<JValue>>, key: string): Result<seq<JValue>, TableError> {
    if |rows| == 0 then Success([])
    else
      match Get(rows[0], key)
      case None => Failure(MissingKey(key))
      case Some(v) =>
        var rest :- ColumnOf(rows[1..], key);
        Success([v] + rest)
  }

  function Columns(rows: seq<Dict<JValue>>, keys: seq<string>): Result<seq<Column>, TableError> {
    if |keys| == 0 then Success([])
    else
      var first :- ColumnOf(rows, keys[0]);
      var rest :- Columns(rows, keys[1..]);
      Success([Column(keys[0], first)] + rest)
  }

  /** The column names: the keys of the last row, except the tree links. */
  function ColumnNames(last: Dict<JValue>): seq<string> {
    if |last| == 0 then []
    else
      var k := last[0].0;
      (if k == "children" || k == "allMousUids" then [] else [k]) + ColumnNames(last[1..])
  }

  function Rows(products: seq<Product>): (rows: seq<Dict<JValue>>)
    ensures |rows| == |products|
    ensures forall k :: 0 <= k < |rows| ==> rows[k] == RowOf(products[k])
  {
    if |products| == 0 then [] else [RowOf(products[0])] + Rows(products[1..])
  }

  /** Every product's row holds every one of the names. */
  predicate HasEveryName(products: seq<Product>, names: seq<string>) {
    forall j, k :: 0 <= j < |products| && 0 <= k < |names| ==> Get(RowOf(products[j]), names[k]).Some?
  }

  /** `cols` is the table of the products under the names: one column per
      name, in order, whose cell for each product is that product's value. */
  predicate IsTableOf(cols: seq<Column>, products: seq<Product>, names: seq<string>) {
    && |cols| == |names|
    && forall k :: 0 <= k < |cols| ==>
         && cols[k].name == names[k] && |cols[k].values| == |products|
         && forall j :: 0 <= j < |products| ==> Get(RowOf(products[j]), names[k]) == Some(cols[k].values[j])
  }

  /** The names of the table's columns: the keys of the last product's row
      without the tree links. */
  function LastRowNames(products: seq<Product>): seq<string>
    requires |products| > 0
  {
    ColumnNames(RowOf(products[|products| - 1]))
  }

  /** `uid_json_to_table`: one row per collected product, one column per key
      of the last product. No product raises (`rows[-1]`), as does a product
      lacking a key of the last one. Column type conversion is not part of
      this model. */
  function UidJsonToTable(root: Item, productlist: seq<string>): (r: Result<seq<Column>, TableError>)
    ensures var products := Flatten(root.children, None, productlist);
      && (r == Failure(NoProducts) <==> |products| == 0)
      && (|products| > 0 ==> (r.Success? <==> HasEveryName(products, LastRowNames(products))))
      && (r.Success? ==> IsTableOf(r.value, products, LastRowNames(products)))
  {
    var products := Flatten(root.children, None, productlist);
    if |products| == 0 then Failure(NoProducts)
    else
      var names := LastRowNames(products);
      ProductColumns(products, names);
      Columns(Rows(products), names)
  }

  /** The columns of the products' rows, stated product by product. */
  lemma ProductColumns(products: seq<Product>, names: seq<string>)
    ensures var r := Columns(Rows(products), names);
      && (r.Failure? ==> r.error != NoProducts)
      && (r.Success? <==> HasEveryName(products, names))
      && (r.Success? ==> IsTableOf(r.value, products, names))
  {
    ColumnsMeaning(Rows(products), names);
    ColumnsSucceed(Rows(products), names);
  }

  /** Each built column holds, row by row, the rows' values for its name. */
  lemma ColumnsMeaning(rows: seq<Dict<JValue>>, names: seq<string>)
    ensures Columns(rows, names).Failure? ==> Columns(rows, names).error != NoProducts
    ensures Columns(rows, names).Success? ==>
              var cs := Columns(rows, names).value;
              && |cs| == |names|
              && forall k :: 0 <= k < |cs| ==>
                   && cs[k].name == names[k] && |cs[k].values| == |rows|
                   && forall j :: 0 <= j < |rows| ==> Get(rows[j], names[k]) == Some(cs[k].values[j])
  {
    ColumnsShape(rows, names);
    forall k | 0 <= k < |names| {
      ColumnOfError(rows, names[k]);
    }
  }

  /** The columns are built exactly when every row holds every name. */
  lemma {:induction false} ColumnsSucceed(rows: seq<Dict<JValue>>, names: seq<string>)
    ensures Columns(rows, names).Success? <==>
              forall j, k :: 0 <= j < |rows| && 0 <= k < |names| ==> Get(rows[j], names[k]).Some?
  {
    if |names| > 0 {
      ColumnsSucceed(rows, names[1..]);
      ColumnOfError(rows, names[0]);
      assert forall k :: 1 <= k < |names| ==> names[k] == names[1..][k - 1];
    }
  }

  lemma {:induction false} ColumnsShape(rows: seq<Dict<JValue>>, keys: seq<string>)
    ensures Columns(rows, keys).Failure? ==> Columns(rows, keys).error != NoProducts
    ensures Columns(rows, keys).Success? ==> |Columns(rows, keys).value| == |keys|
    ensures Columns(rows, keys).Success? ==> forall k :: 0 <= k < |keys| ==>
              ColumnOf(rows, keys[k]).Success? && |ColumnOf(rows, keys[k]).value| == |rows|
              && Columns(rows, keys).value[k] == Column(keys[k], ColumnOf(rows, keys[k]).value)
  {
    if |keys| > 0 {
      ColumnsShape(rows, keys[1..]);
      ColumnOfError(rows, keys[0]);
    }
  }

  lemma {:induction false} ColumnOfError(rows: seq<Dict<JValue>>, key: string)
    ensures ColumnOf(rows, key).Failure? ==> ColumnOf(rows, key).error == MissingKey(key)
    ensures ColumnOf(rows, key).Success? ==> |ColumnOf(rows, key).value| == |rows|
    ensures ColumnOf(rows, key).Success? ==>
              forall j :: 0 <= j < |rows| ==> Get(rows[j], key) == Some(ColumnOf(rows, key).value[j])
    ensures ColumnOf(rows, key).Failure? <==> exists j :: 0 <= j < |rows| && Get(rows[j], key).None?
  {
    if |rows| > 0 {
      ColumnOfError(rows[1..], key);
      if ColumnOf(rows[1..], key).Failure? {
        var j :| 0 <= j < |rows[1..]| && Get(rows[1..][j], key).None?;
        assert Get(rows[j + 1], key).None?;
      }
      assert forall j :: 1 <= j < |rows| ==> rows[j] == rows[1..][j - 1];
    }
  }
}
