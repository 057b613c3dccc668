/**
 Downloads of the ESO client, up to the list of files to fetch: the file
 name a download reply announces, the names a cached or uncompressed copy
 would have, the calibration files the CalSelector service associates with
 a set of datasets, and how `retrieve_data` batches its requests and
 assembles the download list. The service, the file system and `gunzip`
 are abstract parameters.
 */
module EsoFiles {
  import opened Wrappers
  import opened PyText

  // ---------------------------------------------------------------------------
  // _get_filename_from_response

  /** The longest prefix of `s` without whitespace (what `\S+` takes). */
  function NonSpaceRun(s: string): (r: string)
    ensures |r| <= |s| && r == s[..|r|]
    ensures forall k :: 0 <= k < |r| ==> !IsSpace(r[k])
    ensures |r| == |s| || IsSpace(s[|r|])
  {
    if |s| == 0 || IsSpace(s[0]) then "" else [s[0]] + NonSpaceRun(s[1..])
  }

  /** The first match of `filename=(\S+)`: the leftmost `filename=` that is
      followed by a non-whitespace character, and the run after it. */
  function FilenameMatch(d: string): (r: Option<string>)
    ensures r.Some? ==> |r.value| > 0 && forall k :: 0 <= k < |r.value| ==> !IsSpace(r.value[k])
    decreases |d|
  {
    if StartsWith(d, "filename=") && |d| > 9 && !IsSpace(d[9]) then Some(NonSpaceRun(d[9..]))
    else if |d| == 0 then None
    else FilenameMatch(d[1..])
  }

  /** `os.path.basename`: what follows the last `/`. */
  function Basename(p: string): (r: string)
    ensures '/' !in r
    ensures '/' !in p ==> r == p
    ensures EndsWith(p, r)
    ensures forall c :: c in r ==> c in p
  {
    if '/' in p then p[LastIndexOf(p, '/') + 1..] else p
  }

  /** No `filename=` in the `Content-Disposition` header. */
  datatype FilenameError = NoFilename

  /** `_get_filename_from_response`, given the `Content-Disposition` header
      (empty when the reply has none). */
  function GetFilenameFromResponse(disposition: string): (r: Result<string, FilenameError>)
    ensures r.Failure? <==> FilenameMatch(disposition).None?
    ensures r.Success? ==> '"' !in r.value && '/' !in r.value
    ensures r.Success? ==> forall c :: c in r.value ==> !IsSpace(c)
  {
    match FilenameMatch(disposition)
    case None => Failure(NoFilename)
    case Some(m) =>
      var unquoted := Remove(m, '"');
      assert forall c :: c in m ==> !IsSpace(c);
      Success(Basename(unquoted))
  }

  /** A plain name, with no whitespace, quote or slash. */
  predicate PlainName(name: string) {
    |name| > 0 && '"' !in name && '/' !in name && forall c :: c in name ==> !IsSpace(c)
  }

  lemma {:induction false} NonSpaceRunAll(s: string, rest: string)
    requires forall k :: 0 <= k < |s| ==> !IsSpace(s[k])
    requires |rest| == 0 || IsSpace(rest[0])
    ensures NonSpaceRun(s + rest) == s
  {
    if |s| > 0 {
      assert (s + rest)[1..] == s[1..] + rest;
      NonSpaceRunAll(s[1..], rest);
    }
  }

  lemma {:induction false} RemoveAbsent(s: string, a: char)
    requires a !in s
    ensures Remove(s, a) == s
  {
    if |s| > 0 {
      RemoveAbsent(s[1..], a);
      assert s == [s[0]] + s[1..];
    }
  }

  lemma {:induction false} RemoveQuotes(name: string)
    requires '"' !in name
    ensures Remove("\"" + name + "\"", '"') == name
  {
    var q := "\"" + name + "\"";
    assert q[1..] == name + "\"";
    RemoveAppendQuote(name);
  }

  lemma {:induction false} RemoveAppendQuote(name: string)
    requires '"' !in name
    ensures Remove(name + "\"", '"') == name
  {
    if |name| == 0 {
    } else {
      assert (name + "\"")[1..] == name[1..] + "\"";
      RemoveAppendQuote(name[1..]);
      assert name == [name[0]] + name[1..];
    }
  }

  /** A header that starts with `filename=` and a non-space character
      announces the run of non-space characters after it. */
  lemma FilenameMatchPrefix(s: string)
    requires |s| > 0 && !IsSpace(s[0])
    ensures FilenameMatch("filename=" + s) == Some(NonSpaceRun(s))
  {
    var d := "filename=" + s;
    assert d[..9] == "filename=";
    assert d[9] == s[0] && d[9..] == s;
  }

  /** No match starts inside a `=`-free prefix such as `attachment; `
      when what follows begins with `filename`. */
  lemma {:induction false} FilenameMatchSkip(pre: string, d: string)
    requires '=' !in pre && |d| >= 8 && '=' !in d[..8]
    ensures FilenameMatch(pre + d) == FilenameMatch(d)
    decreases |pre|
  {
    if |pre| > 0 {
      var s := pre + d;
      assert !StartsWith(s, "filename=") by {
        if |s| > 8 {
          if 8 < |pre| {
            assert s[8] == pre[8];
          } else {
            assert s[8] == d[..8][8 - |pre|];
          }
        }
        assert "filename="[8] == '=';
      }
      assert s[1..] == pre[1..] + d;
      FilenameMatchSkip(pre[1..], d);
    } else {
      assert pre + d == d;
    }
  }

  /** The text `filename=` followed by anything starts with `filename`,
      which has no `=`. */
  lemma FilenameWord(s: string)
    ensures |"filename=" + s| >= 8 && '=' !in ("filename=" + s)[..8]
  {
    assert ("filename=" + s)[..8] == "filename";
  }

  /** After a `=`-free prefix, `filename=` and a non-space character
      announce the run of non-space characters that follows. */
  lemma FilenameAfter(pre: string, s: string)
    requires '=' !in pre && |s| > 0 && !IsSpace(s[0])
    ensures FilenameMatch(pre + "filename=" + s) == Some(NonSpaceRun(s))
  {
    assert pre + "filename=" + s == pre + ("filename=" + s);
    FilenameWord(s);
    FilenameMatchSkip(pre, "filename=" + s);
    FilenameMatchPrefix(s);
  }

  /** The name announced by `filename=name`, after any `=`-free text such
      as `attachment; ` and followed by whitespace or nothing, comes back
      unchanged. */
  lemma FilenameRoundTrip(pre: string, name: string, rest: string)
    requires '=' !in pre
    requires PlainName(name) && (|rest| == 0 || IsSpace(rest[0]))
    ensures GetFilenameFromResponse(pre + "filename=" + name + rest) == Success(name)
  {
    assert pre + "filename=" + name + rest == pre + "filename=" + (name + rest);
    assert (name + rest)[0] == name[0];
    FilenameAfter(pre, name + rest);
    NonSpaceRunAll(name, rest);
    RemoveAbsent(name, '"');
  }

  /** The same for the quoted form `filename="name"`. */
  lemma QuotedFilenameRoundTrip(pre: string, name: string, rest: string)
    requires '=' !in pre
    requires PlainName(name) && (|rest| == 0 || IsSpace(rest[0]))
    ensures GetFilenameFromResponse(pre + "filename=\"" + name + "\"" + rest) == Success(name)
  {
    var quoted := "\"" + name + "\"";
    assert pre + "filename=\"" + name + "\"" + rest == pre + "filename=" + (quoted + rest);
    assert (quoted + rest)[0] == '"' && !IsSpace('"');
    FilenameAfter(pre, quoted + rest);
    QuotedNonSpace(name);
    NonSpaceRunAll(quoted, rest);
    RemoveQuotes(name);
  }

  lemma QuotedNonSpace(name: string)
    requires PlainName(name)
    ensures forall k :: 0 <= k < |"\"" + name + "\""| ==> !IsSpace(("\"" + name + "\"")[k])
  {
    var quoted := "\"" + name + "\"";
    forall k | 0 <= k < |quoted| ensures !IsSpace(quoted[k]) {
      if 0 < k < |quoted| - 1 {
        assert quoted[k] == name[k - 1];
      }
    }
  }

  // ---------------------------------------------------------------------------
  // _find_cached_file and _unzip_file

  /** The names `gunzip` handles. */
  predicate Compressed(f: string) {
    EndsWith(f, "fits.Z") || EndsWith(f, "fits.gz")
  }

  /** `_find_cached_file`: the file, or its uncompressed form for a
      compressed name, exists. */
  method FindCachedFile(filename: string, existing: set<string>) returns (found: bool)
    ensures found <==> filename in existing || (Compressed(filename) && BeforeLastDot(filename) in existing)
  {
    var candidates := if Compressed(filename) then [filename, BeforeLastDot(filename)] else [filename];
    var i := 0;
    found := false;
    while i < |candidates| && !found
      invariant 0 <= i <= |candidates|
      invariant found <==> exists j :: 0 <= j < i && candidates[j] in existing
    {
      found := candidates[i] in existing;
      i := i + 1;
    }
    assert found <==> exists j :: 0 <= j < |candidates| && candidates[j] in existing;
    if Compressed(filename) {
      assert candidates == [filename, BeforeLastDot(filename)];
      assert found <==> candidates[0] in existing || candidates[1] in existing;
    } else {
      assert candidates == [filename];
      assert found <==> candidates[0] in existing;
    }
  }

  /** How a `gunzip` run ends: success, or the process failing. The failure
      reaches the caller: the `except UnknownException` clause around the
      run never fires, since nothing raises that exception. */
  datatype GunzipOutcome = GunzipOk | GunzipFailed

  datatype UnzipError = ProcessError(filename: string)

  /** `_unzip_file`: the name without its last extension for a compressed
      file, when that file already exists or `gunzip` produces it; the name
      itself otherwise. */
  function UnzipFile(filename: string, existing: set<string>, gunzip: GunzipOutcome): (r: Result<string, UnzipError>)
    ensures !Compressed(filename) ==> r == Success(filename)
    ensures Compressed(filename) && BeforeLastDot(filename) in existing ==> r == Success(BeforeLastDot(filename))
    ensures r.Failure? <==> Compressed(filename) && BeforeLastDot(filename) !in existing && gunzip == GunzipFailed
    ensures r.Success? ==> r.value == filename || (Compressed(filename) && r.value == BeforeLastDot(filename))
    ensures Compressed(filename) && r.Success? ==> r.value == BeforeLastDot(filename)
  {
    if Compressed(filename) then
      var unc := BeforeLastDot(filename);
      if unc in existing then Success(unc)
      else match gunzip
        case GunzipOk => Success(unc)
        case GunzipFailed => Failure(ProcessError(filename))
    else Success(filename)
  }

  /** Dropping the last extension of `x.ext` gives `x` when `ext` has no dot. */
  lemma {:induction false} BeforeLastDotExt(x: string, ext: string)
    requires '.' !in ext
    ensures BeforeLastDot(x + "." + ext) == x
  {
    var s := x + "." + ext;
    assert s[|x|] == '.';
  }

  /** The uncompressed name of `x.fits.gz` is `x.fits`, and a successful
      uncompression is what the cache lookup then finds. */
  lemma UnzipGz(x: string, existing: set<string>)
    ensures UnzipFile(x + "fits.gz", existing, GunzipOk) == Success(x + "fits")
    ensures UnzipFile(x + "fits.Z", existing, GunzipOk) == Success(x + "fits")
  {
    assert x + "fits.gz" == (x + "fits") + "." + "gz";
    assert x + "fits.Z" == (x + "fits") + "." + "Z";
    BeforeLastDotExt(x + "fits", "gz");
    BeforeLastDotExt(x + "fits", "Z");
    assert Compressed(x + "fits.gz") by {
      assert (x + "fits.gz")[|x + "fits.gz"| - 7..] == "fits.gz";
    }
    assert Compressed(x + "fits.Z") by {
      assert (x + "fits.Z")[|x + "fits.Z"| - 6..] == "fits.Z";
    }
  }

  // ---------------------------------------------------------------------------
  // get_associated_files

  /** The CalSelector reply: status, content type, disposition header, the
      file names of the association tree of an XML reply, and those of each
      part of a multipart reply. XML parsing is not part of this model. */
  datatype CalselectorReply = CalselectorReply(status: int, contentType: string, disposition: string,
                                               tree: set<string>, parts: seq<set<string>>)

  /** The service, as a function of the datasets and the mode sent. */
  type Calselector = (seq<string>, string) -> CalselectorReply

  datatype CalError = HttpError(status: int) | MissingFilename | UnexpectedContentType(contentType: string)

  /** The CalSelector mode for the client's `mode` argument. */
  function CalselectorMode(mode: string): (m: string)
    ensures m == "Raw2Raw" <==> mode == "raw"
    ensures m != "Raw2Raw" ==> m == "Raw2Master"
  {
    if mode == "raw" then "Raw2Raw" else "Raw2Master"
  }

  function UnionAll(parts: seq<set<string>>): (u: set<string>)
    ensures forall x :: x in u <==> exists i :: 0 <= i < |parts| && x in parts[i]
  {
    if |parts| == 0 then {} else parts[0] + UnionAll(parts[1..])
  }

  /** The names a successful reply carries. */
  function ReplyNames(reply: CalselectorReply): Result<set<string>, CalError> {
    if 400 <= reply.status < 600 then Failure(HttpError(reply.status))
    else if IsInfix("application/xml", reply.contentType) then
      if GetFilenameFromResponse(reply.disposition).Failure? then Failure(MissingFilename)
      else Success(reply.tree)
    else if IsInfix("multipart/form-data", reply.contentType) then Success(UnionAll(reply.parts))
    else Failure(UnexpectedContentType(reply.contentType))
  }

  /** `get_associated_files`: the associated names minus the input datasets. */
  function GetAssociatedFiles(datasets: seq<string>, mode: string, calselector: Calselector): (r: Result<set<string>, CalError>)
    ensures var names := ReplyNames(calselector(datasets, CalselectorMode(mode)));
      && (r.Failure? <==> names.Failure?)
      && (r.Success? ==> forall x :: x in r.value <==> x in names.value && x !in datasets)
  {
    var names :- ReplyNames(calselector(datasets, CalselectorMode(mode)));
    Success(names - set d | d in datasets)
  }

  // ---------------------------------------------------------------------------
  // retrieve_data

  /** Sorted in Python's string order, each neighbour not above the next. */
  predicate SortedStrings(s: seq<string>) {
    |s| < 2 || (LexLe(s[0], s[1]) && SortedStrings(s[1..]))
  }

  function Insert(x: string, s: seq<string>): (r: seq<string>)
    requires SortedStrings(s)
    ensures SortedStrings(r) && multiset(r) == multiset(s) + multiset{x}
    ensures |r| > 0 && (r[0] == x || (|s| > 0 && r[0] == s[0]))
  {
    if |s| == 0 then [x]
    else if LexLe(x, s[0]) then [x] + s
    else
      LexLeTotal(x, s[0]);
      var rest := Insert(x, s[1..]);
      assert s == [s[0]] + s[1..];
      [s[0]] + rest
  }

  /** `sorted(xs)`. */
  function SortStrings(xs: seq<string>): (r: seq<string>)
    ensures SortedStrings(r) && multiset(r) == multiset(xs)
  {
    if |xs| == 0 then []
    else
      assert xs == [xs[0]] + xs[1..];
      Insert(xs[0], SortStrings(xs[1..]))
  }

  const BatchSize: nat := 100

  /** Consecutive slices of at most `n` elements. */
  function Batches(xs: seq<string>, n: nat): (r: seq<seq<string>>)
    requires n > 0
    ensures forall i :: 0 <= i < |r| ==> 0 < |r[i]| <= n
    ensures forall i :: 0 <= i < |r| - 1 ==> |r[i]| == n
    decreases |xs|
  {
    if |xs| == 0 then []
    else if |xs| <= n then [xs]
    else [xs[..n]] + Batches(xs[n..], n)
  }

  function Concat(bs: seq<seq<string>>): seq<string> {
    if |bs| == 0 then [] else bs[0] + Concat(bs[1..])
  }

  /** The batches cover the input exactly once, in order. */
  lemma {:induction false} BatchesCover(xs: seq<string>, n: nat)
    requires n > 0
    ensures Concat(Batches(xs, n)) == xs
    decreases |xs|
  {
    if |xs| > n {
      BatchesCover(xs[n..], n);
      assert xs == xs[..n] + xs[n..];
    }
  }

  /** The calibration names of the batches, each batch's own datasets
      removed from its answer, as `retrieve_data` collects them. */
  function CalibrationPerBatch(batches: seq<seq<string>>, mode: string, calselector: Calselector): (r: Result<set<string>, CalError>)
    ensures r.Success? ==> forall x :: x in r.value <==>
              exists b :: b in batches && GetAssociatedFiles(b, mode, calselector).Success?
                                       && x in GetAssociatedFiles(b, mode, calselector).value
    ensures r.Failure? <==> exists b :: b in batches && GetAssociatedFiles(b, mode, calselector).Failure?
  {
    if |batches| == 0 then Success({})
    else
      assert forall b :: b in batches <==> b == batches[0] || b in batches[1..];
      var first :- GetAssociatedFiles(batches[0], mode, calselector);
      var rest :- CalibrationPerBatch(batches[1..], mode, calselector);
      Success(first + rest)
  }

  /** The datasets argument: one name or a list of names. */
  datatype Datasets = OneDataset(name: string) | DatasetList(names: seq<string>)

  function DatasetNames(d: Datasets): seq<string> {
    match d
    case OneDataset(n) => [n]
    case DatasetList(ns) => ns
  }

  datatype RetrieveError = InvalidWithCalib(value: string) | CalselectorFailed(error: CalError)

  /** An empty `with_calib` is as good as none. */
  predicate CalibRequested(withCalib: Option<string>) {
    withCalib.Some? && withCalib.value != ""
  }

  /** The calibration files `retrieve_data` adds, as the source computes
      them: per batch of 100 sorted datasets. */
  function RetrieveCalibrationAsWritten(datasets: seq<string>, withCalib: Option<string>,
                                        calselector: Calselector): (r: Result<set<string>, RetrieveError>)
    ensures CalibRequested(withCalib) && withCalib.value !in {"raw", "processed"} ==>
              r == Failure(InvalidWithCalib(withCalib.value))
    ensures !CalibRequested(withCalib) ==> r == Success({})
    ensures CalibRequested(withCalib) && withCalib.value in {"raw", "processed"} ==>
              var per := CalibrationPerBatch(Batches(SortStrings(datasets), BatchSize), withCalib.value, calselector);
              (r.Success? <==> per.Success?) && (r.Success? ==> r.value == per.value)
  {
    if !CalibRequested(withCalib) then Success({})
    else if withCalib.value !in {"raw", "processed"} then Failure(InvalidWithCalib(withCalib.value))
    else
      match CalibrationPerBatch(Batches(SortStrings(datasets), BatchSize), withCalib.value, calselector)
      case Failure(e) => Failure(CalselectorFailed(e))
      case Success(s) => Success(s)
  }

  /** The calibration files as evidently intended: the union over all
      batches, minus every requested dataset. */
  function RetrieveCalibration(datasets: seq<string>, withCalib: Option<string>,
                               calselector: Calselector): (r: Result<set<string>, RetrieveError>)
    ensures r.Success? ==> forall x :: x in r.value ==> x !in datasets
    ensures r.Failure? <==> RetrieveCalibrationAsWritten(datasets, withCalib, calselector).Failure?
    ensures r.Success? ==> r.value == RetrieveCalibrationAsWritten(datasets, withCalib, calselector).value
                                      - set d | d in datasets
  {
    match RetrieveCalibrationAsWritten(datasets, withCalib, calselector)
    case Failure(e) => Failure(e)
    case Success(s) => Success(s - set d | d in datasets)
  }

  /** A service that associates every requested name with all of `names`. */
  function EchoCalselector(names: set<string>): Calselector {
    (ds: seq<string>, m: string) => CalselectorReply(200, "multipart/form-data", "", {}, [names])
  }

  lemma SortedNoDup(xs: seq<string>)
    requires NoDup(xs)
    ensures NoDup(SortStrings(xs)) && |SortStrings(xs)| == |xs|
  {
    var s := SortStrings(xs);
    NoDupCounts(xs);
    assert |s| == |multiset(s)| == |multiset(xs)| == |xs|;
    forall x | x in s ensures multiset(s)[x] == 1 {
      assert x in multiset(s);
    }
    NoDupCounts(s);
  }

  /** A multipart reply is not mistaken for an XML one. */
  lemma MultipartIsNotXml()
    ensures !IsInfix("application/xml", "multipart/form-data")
    ensures IsInfix("multipart/form-data", "multipart/form-data")
  {
    var ct := "multipart/form-data";
    var xml := "application/xml";
    assert xml[12] == 'x';
    assert forall k :: 0 <= k < |ct| ==> ct[k] != 'x';
    NotInfixByChar(xml, ct, 'x');
    InfixSelf(ct);
  }

  lemma MultipartNames(reply: CalselectorReply)
    requires reply.contentType == "multipart/form-data" && !(400 <= reply.status < 600)
    ensures ReplyNames(reply) == Success(UnionAll(reply.parts))
  {
    MultipartIsNotXml();
  }

  lemma UnionOne(names: set<string>)
    ensures UnionAll([names]) == names
  {
    assert [names][1..] == [];
  }

  lemma MultipartReply(names: set<string>, b: seq<string>, m: string)
    ensures ReplyNames(EchoCalselector(names)(b, m)) == Success(names)
  {
    var reply := EchoCalselector(names)(b, m);
    assert reply == CalselectorReply(200, "multipart/form-data", "", {}, [names]);
    MultipartNames(reply);
    UnionOne(names);
  }

  /** Every batch is answered with `names` minus its own datasets. */
  lemma {:induction false} EchoPerBatch(batches: seq<seq<string>>, names: set<string>)
    ensures CalibrationPerBatch(batches, "raw", EchoCalselector(names)).Success?
    ensures forall i :: 0 <= i < |batches| ==>
              GetAssociatedFiles(batches[i], "raw", EchoCalselector(names)) == Success(names - set d | d in batches[i])
  {
    var c := EchoCalselector(names);
    forall b: seq<string> ensures GetAssociatedFiles(b, "raw", c) == Success(names - set d | d in b) {
      MultipartReply(names, b, "Raw2Raw");
    }
    if |batches| > 0 {
      EchoPerBatch(batches[1..], names);
    }
  }

  /** A name the service associates with the first batch but that is not
      in it is collected. */
  lemma EchoCollects(batches: seq<seq<string>>, names: set<string>, x: string)
    requires |batches| > 0 && x in names && x !in batches[0]
    ensures var per := CalibrationPerBatch(batches, "raw", EchoCalselector(names));
      per.Success? && x in per.value
  {
    EchoPerBatch(batches, names);
    assert x in GetAssociatedFiles(batches[0], "raw", EchoCalselector(names)).value;
  }

  /** With more than 100 distinct datasets, the 101st in sorted order is
      not in the first batch. */
  lemma SecondBatchStart(datasets: seq<string>) returns (x: string)
    requires NoDup(datasets) && |datasets| > BatchSize
    ensures x in datasets && x !in Batches(SortStrings(datasets), BatchSize)[0]
  {
    var sorted := SortStrings(datasets);
    SortedNoDup(datasets);
    x := sorted[BatchSize];
    assert x in datasets by {
      assert x in multiset(sorted);
    }
    assert Batches(sorted, BatchSize)[0] == sorted[..BatchSize];
    NoDupSplit(sorted, BatchSize);
  }

  /** As written, with more than 100 distinct datasets a dataset of a later
      batch that the service associates with an earlier batch is added as a
      calibration file, so it is listed and requested twice; the second
      request finds the file already saved. */
  lemma CrossBatchDuplicate(datasets: seq<string>)
    requires NoDup(datasets) && |datasets| > BatchSize
    ensures var c := EchoCalselector(set d | d in datasets);
      var asWritten := RetrieveCalibrationAsWritten(datasets, Some("raw"), c);
      asWritten.Success? && exists x :: x in asWritten.value && x in datasets
  {
    var all := set d | d in datasets;
    var batches := Batches(SortStrings(datasets), BatchSize);
    var x := SecondBatchStart(datasets);
    EchoCollects(batches, all, x);
    var per := CalibrationPerBatch(batches, "raw", EchoCalselector(all));
    assert RetrieveCalibrationAsWritten(datasets, Some("raw"), EchoCalselector(all)) == Success(per.value);
  }

  /** Sorting keeps the names. */
  lemma SortedSameNames(datasets: seq<string>)
    ensures |SortStrings(datasets)| == |datasets|
    ensures forall x :: x in SortStrings(datasets) <==> x in datasets
  {
    var sorted := SortStrings(datasets);
    assert |multiset(sorted)| == |multiset(datasets)|;
    forall x ensures x in sorted <==> x in datasets {
      assert x in sorted <==> x in multiset(sorted);
      assert x in datasets <==> x in multiset(datasets);
    }
  }

  /** Up to 100 datasets, `retrieve_data` sends one request: the sorted
      datasets, and collects exactly what `get_associated_files` returns
      for them. */
  lemma SingleBatch(datasets: seq<string>, mode: string, c: Calselector)
    requires 0 < |datasets| <= BatchSize
    ensures CalibrationPerBatch(Batches(SortStrings(datasets), BatchSize), mode, c)
            == GetAssociatedFiles(SortStrings(datasets), mode, c)
  {
    var sorted := SortStrings(datasets);
    SortedSameNames(datasets);
    assert Batches(sorted, BatchSize) == [sorted];
    assert [sorted][1..] == [];
    assert CalibrationPerBatch([], mode, c) == Success({});
    var g := GetAssociatedFiles(sorted, mode, c);
    if g.Success? {
      assert g.value + {} == g.value;
    }
  }

  /** Up to 100 datasets the written calibration set and the corrected one
      are the same: no dataset comes back as a calibration file. */
  lemma FewDatasetsAgree(datasets: seq<string>, withCalib: Option<string>, c: Calselector)
    requires |datasets| <= BatchSize
    ensures RetrieveCalibrationAsWritten(datasets, withCalib, c) == RetrieveCalibration(datasets, withCalib, c)
  {
    var w := RetrieveCalibrationAsWritten(datasets, withCalib, c);
    if w.Success? {
      if !CalibRequested(withCalib) {
        assert w.value == {};
      } else if |datasets| == 0 {
        assert SortStrings(datasets) == [];
        assert Batches(SortStrings(datasets), BatchSize) == [];
        assert w.value == {};
      } else {
        SingleBatch(datasets, withCalib.value, c);
        SortedSameNames(datasets);
        assert forall x :: x in w.value ==> x !in datasets;
      }
      assert w.value - (set d | d in datasets) == w.value;
    }
  }

  lemma {:induction false} NoDupSplit(s: seq<string>, n: nat)
    requires NoDup(s) && n < |s|
    ensures s[n] !in s[..n]
  {
    if n > 0 {
      assert s[1..][n - 1] == s[n];
      assert s[1..][..n - 1] == s[..n][1..];
      NoDupSplit(s[1..], n - 1);
      assert s[..n] == [s[0]] + s[1..][..n - 1];
    }
  }

  lemma {:induction false} AllBatchesSucceed(batches: seq<seq<string>>, c: Calselector, all: set<string>)
    requires forall b :: ReplyNames(c(b, "Raw2Raw")) == Success(all)
    ensures CalibrationPerBatch(batches, "raw", c).Success?
  {
    if |batches| > 0 {
      AllBatchesSucceed(batches[1..], c, all);
    }
  }

  /** `list(set(...))`: the names of a set, each once, in some order. */
  method SetToSeq(s: set<string>) returns (xs: seq<string>)
    ensures NoDup(xs)
    ensures forall x :: x in xs <==> x in s
  {
    xs := [];
    var left := s;
    while left != {}
      invariant left !! set x | x in xs
      invariant forall x :: x in s <==> x in left || x in xs
      invariant NoDup(xs)
      decreases |left|
    {
      var x :| x in left;
      AppendFreshNoDup(xs, x);
      xs := xs + [x];
      left := left - {x};
    }
  }

  /** What `retrieve_data` hands back: one name when a single name was asked
      for and one file came back, the list otherwise. */
  datatype Files = FileName(name: string) | FileNames(names: seq<string>)

  /** The names a result stands for. */
  function AsList(f: Files): seq<string> {
    match f
    case FileName(n) => [n]
    case FileNames(ns) => ns
  }

  /** Only the shape changes: the names handed back are the files, in
      order, and a single name is unwrapped only for a single-name call. */
  function ReturnShape(files: seq<string>, returnString: bool): (r: Files)
    ensures AsList(r) == files
    ensures r.FileName? <==> returnString && |files| == 1
  {
    if returnString && |files| == 1 then FileName(files[0]) else FileNames(files)
  }

  /** The datasets followed by the calibration names, each once, in some
      order. */
  method AppendCalibration(names: seq<string>, calib: Result<set<string>, RetrieveError>)
    returns (r: Result<seq<string>, RetrieveError>)
    ensures r.Failure? <==> calib.Failure?
    ensures r.Failure? ==> r.error == calib.error
    ensures r.Success? ==>
              && |r.value| >= |names| && r.value[..|names|] == names
              && NoDup(r.value[|names|..])
              && forall x :: x in r.value[|names|..] <==> x in calib.value
    ensures r.Success? && NoDup(names) && (forall x :: x in calib.value ==> x !in names) ==> NoDup(r.value)
  {
    if calib.Failure? {
      return Failure(calib.error);
    }
    var extra := SetToSeq(calib.value);
    var all := names + extra;
    assert all[..|names|] == names && all[|names|..] == extra;
    if NoDup(names) && forall x :: x in calib.value ==> x !in names {
      NoDupConcat(names, extra);
    }
    return Success(all);
  }

  /** The list `retrieve_data` downloads, as written: the datasets in the
      caller's order, then each collected calibration name once. Distinct
      datasets give a list without repetition only up to one batch; past
      that a dataset can come back as a calibration name of another batch
      (see `CrossBatchDuplicate`). */
  method DownloadList(datasets: Datasets, withCalib: Option<string>, calselector: Calselector)
    returns (r: Result<seq<string>, RetrieveError>)
    ensures var calib := RetrieveCalibrationAsWritten(DatasetNames(datasets), withCalib, calselector);
      && (r.Failure? <==> calib.Failure?)
      && (r.Success? ==>
            var names := DatasetNames(datasets);
            && |r.value| >= |names| && r.value[..|names|] == names
            && NoDup(r.value[|names|..])
            && forall x :: x in r.value[|names|..] <==> x in calib.value)
    ensures r.Success? && NoDup(DatasetNames(datasets)) && |DatasetNames(datasets)| <= BatchSize ==> NoDup(r.value)
  {
    var names := DatasetNames(datasets);
    var calib := RetrieveCalibrationAsWritten(names, withCalib, calselector);
    if |names| <= BatchSize {
      FewDatasetsAgree(names, withCalib, calselector);
    }
    r := AppendCalibration(names, calib);
  }

  /** The list as evidently intended: the calibration names exclude every
      dataset, so distinct datasets are each listed once. */
  method DownloadListCorrected(datasets: Datasets, withCalib: Option<string>, calselector: Calselector)
    returns (r: Result<seq<string>, RetrieveError>)
    ensures var calib := RetrieveCalibration(DatasetNames(datasets), withCalib, calselector);
      && (r.Failure? <==> calib.Failure?)
      && (r.Success? ==>
            var names := DatasetNames(datasets);
            && |r.value| >= |names| && r.value[..|names|] == names
            && NoDup(r.value[|names|..])
            && forall x :: x in r.value[|names|..] <==> x in calib.value && x !in names)
    ensures r.Success? && NoDup(DatasetNames(datasets)) ==> NoDup(r.value)
  {
    var names := DatasetNames(datasets);
    var calib := RetrieveCalibration(names, withCalib, calselector);
    r := AppendCalibration(names, calib);
  }
}
