# ESO and ALMA archive clients: query building, sessions, caching and file logic

This project models the sequential, text- and sequence-level core of two
astroquery archive clients, and proves properties of the model in Dafny.

**ESO (`astroquery/eso`)**
- The ADQL builder `py2adql` and its helpers: comma splitting, column
  reordering, value quoting, cone validity, and argument validation.
- The single-sign-on session: token expiry against a clock reading,
  `_authenticate` and `_get_auth_header`.
- The query cache: the cache file of a query, the freshness rule of
  `from_cache`, and the read-through behaviour of `query_tap_service`.
- The where-clause assembly of `_query_instrument_or_collection` and
  `query_main`.
- The parsing of FITS header pages in `get_headers`, and how their columns
  are unified.
- The name rules of downloaded files: `_get_filename_from_response`,
  `_find_cached_file` and `_unzip_file`.
- The CalSelector calibration logic of `get_associated_files` and
  `retrieve_data`, batching included.

**ALMA (`astroquery/alma`)**
- `_gen_sql`, which turns a payload into ADQL over the form-key table, and
  the payload merge of `query_async`.
- The `AlmaAuth` host selection and login-reply classification.
- Project-id validation in `get_project_metadata`.
- `clean_uid`/`reform_uid` and `unique`.
- The product-tree flattening of `uid_json_to_table`.

**How the environment is represented**
- Python's own behaviour is modelled in two shared modules:
  - `PyText`: `str.strip` with Unicode whitespace, `split`, `join`,
    `replace`, string order, and `str`/`repr` of scalars.
  - `PyDict`: insertion-ordered dictionaries.
- Everything the code reaches over the network or the file system is a
  parameter of the model:
  - the clock;
  - HTTP replies;
  - the TAP service's answer;
  - the set of existing files;
  - the outcome of `gunzip`;
  - the CalSelector service.
- Helpers whose code is not part of this model are uninterpreted
  functions. These are `eso_hash`, `sanitize_val`, the `tapsql` fragment
  generators, and the `strptime` check of timestamps.

**Where the code disagrees with its documentation, the model follows the code:**
- `AuthInfo.expired` compares strictly (`now > exp - 600`). A token is
  still valid at exactly ten minutes before its `exp`.
- The only value quoting in the ESO utilities is `adql_sanitize_val`. It
  adds one pair of single quotes and does not look at operators.
- `_is_timestamp_valid` parses with `%Y-%m-%d %H:%M:%S`. Its docstring and
  its error message name other formats. The model keeps the check as an
  abstract predicate.
- `UnknownException` is declared (`astroquery/eso/core.py:46`) but nothing
  raises it. So three `except UnknownException` clauses never fire: around
  the TAP search (`astroquery/eso/core.py:278`), around `gunzip`
  (`astroquery/eso/core.py:636`) and around the CalSelector batches
  (`astroquery/eso/core.py:774`). Any other failure there propagates to the
  caller unchanged, and the model returns it as an error.

## Model

| member | source | states |
|---|---|---|
| EsoUtils.SplitStrAsListOfStr | astroquery/eso/utils.py:13-18 | the empty text gives no names; any other text gives one name per comma plus one, each free of commas and of surrounding whitespace |
| EsoUtils.SplitStrPieces | astroquery/eso/utils.py:17 | each name is the stripped text between two consecutive commas of the input |
| EsoUtils.SplitStrOfJoin | astroquery/eso/utils.py:13-18 | splitting comma-joined clean names gives those names back |
| EsoUtils.ReorderColumns | astroquery/eso/utils.py:30-42 | a non-table comes back unchanged; a table keeps the same column names, each once, as a permutation of its columns |
| EsoUtils.ReorderNames | astroquery/eso/utils.py:33-41 | the result is the leading columns that are present, in leading order, followed by the other columns in their original order; it is a permutation without repetition |
| EsoUtils.ChosenMembers | astroquery/eso/utils.py:36-39 | a name is among the leading part iff it is a leading column and a table column |
| EsoUtils.OthersMembers | astroquery/eso/utils.py:35-40 | a name is among the trailing part iff it is a table column that is not a leading column |
| EsoUtils.AdqlSanitizeVal | astroquery/eso/utils.py:45-50 | a string gains exactly one pair of single quotes around its unchanged text; any other value is printed as `str` gives it |
| EsoUtils.SanitizeQuotesTwice | astroquery/eso/utils.py:45-50 | an already quoted string is quoted again: nothing checks for existing quotes |
| EsoUtils.AreCoordsValid | astroquery/eso/utils.py:53-65 | with no cone argument the cone is valid; with one or two it is not; with all three it is valid iff each is a number |
| EsoUtils.PartialConeInvalid | astroquery/eso/utils.py:53-65 | one or two given cone arguments are never valid |
| EsoUtils.ValidateArguments | astroquery/eso/utils.py:88-120 | missing filters fail; the deprecated keys are refused before anything else; a partial cone, a bad timestamp or a start not before the end fail; the arguments pass iff none of these holds |
| EsoUtils.EffectiveColumns | astroquery/eso/utils.py:144-149 | counting forces `count(*)`; absent or empty columns mean `*`; a text is comma-split; a list is kept |
| EsoUtils.WhereList | astroquery/eso/utils.py:134-143 | the caller's constraints in order, then the cone constraint exactly when a radius is given |
| EsoUtils.Py2Adql | astroquery/eso/utils.py:123-166 | the query starts with `select` and does not end in whitespace |
| EsoUtils.Py2AdqlNoWhere | astroquery/eso/utils.py:142-166 | without constraints, radius or ordering the query is `select [top n] <columns> from <table>` with no where clause |
| EsoUtils.Py2AdqlWhereOnly | astroquery/eso/utils.py:152-166 | with constraints and no radius the query ends in ` where ` and the constraints joined by ` and ` |
| EsoUtils.Py2AdqlWhereOrder | astroquery/eso/utils.py:134-159 | with a radius and an ordering, the where clause holds the caller's constraints then the cone, right before ` order by ` |
| EsoAuth.ExpiredBoundary | astroquery/eso/core.py:64-66 | at exactly 600 seconds before `exp` the token is not expired, one second later it is, and expiry persists as time goes on |
| EsoAuth.Authenticate | astroquery/eso/core.py:171-191 | a session exists iff the reply is a 200 with a token; it then holds the given credentials and the token's expiry; any other status returns false and leaves no session |
| EsoAuth.AuthenticateForgetsPrevious | astroquery/eso/core.py:175 | the session held before has no influence on the attempt |
| EsoAuth.GetAuthHeader | astroquery/eso/core.py:241-249 | re-authentication happens iff a session exists and is expired, and reuses its credentials; a non-empty header carries `Bearer ` and the token of a session that is not expired |
| EsoAuth.NoSessionNoHeader | astroquery/eso/core.py:242-249 | without a session nothing is requested and the header is empty |
| EsoAuth.RefusedRenewalEndsSession | astroquery/eso/core.py:242-249 | an expired session whose renewal is refused ends with no session and an empty header |
| EsoAuth.RenewalSendsNewToken | astroquery/eso/core.py:242-247 | a successful renewal sends the new token |
| EsoAuth.ExpiryBetweenReadings | astroquery/eso/core.py:242-249 | a session valid at the first clock reading but expired at the second sends no header and is not renewed |
| EsoCache.RequestFile | astroquery/eso/core.py:143-146 | the cache file is `<cache dir>/<hash>.pickle` |
| EsoCache.RequestFileSeparates | astroquery/eso/core.py:143-146 | two queries share a cache file iff their hashes agree |
| EsoCache.FromCache | astroquery/eso/core.py:148-169 | a table is returned only when the file exists, is fresh and holds a table; a missing file, a stale entry or other content give none |
| EsoCache.FromCacheFreshness | astroquery/eso/core.py:151-156 | without a timeout a stored table is always served; with one it is served iff fresh; a table served later was served earlier |
| EsoCache.QueryTapService | astroquery/eso/core.py:251-285 | the global setting applies when the caller gives none; with the cache off nothing is read or written; a fresh non-empty cached table is returned without a remote call; otherwise the service is asked: its table is returned when non-empty (none when empty) and stored under the query's file, a rejected query fails carrying the query text, and any other failure propagates unchanged |
| EsoCache.AskService | astroquery/eso/core.py:265-285 | the service is asked: its table is the result and is written when a cache file is given; a `DALQueryError` is raised again with the query text; any other failure propagates unchanged and nothing is written |
| EsoCache.CacheRoundTrip | astroquery/eso/core.py:266-273 | a fetched non-empty table is served from the cache to the next identical query while fresh, with no remote call |
| EsoCache.EmptyResultNotServed | astroquery/eso/core.py:270-273 | an empty result is written but a later query fetches again |
| EsoQueries.QuoteAll | astroquery/eso/core.py:383 | one output per primary name, in order: the stripped name with one single quote before and after it |
| EsoQueries.EqualityConstraints | astroquery/eso/core.py:396 | one constraint per filter, in dictionary order, each starting with the key and ` = ` and ending with the sanitized value |
| EsoQueries.FieldFilters | astroquery/eso/core.py:374-389 | column filters override keyword arguments; `box` is dropped; the coordinates are taken out as a pair iff both are present |
| EsoQueries.FiltersPrecedence | astroquery/eso/core.py:374 | for every key, the column filter's value wins over a keyword argument's, unless the key is removed |
| EsoQueries.SingleCoordStays | astroquery/eso/core.py:387-389 | a lone `coord1` gives no circle and stays an equality filter |
| EsoQueries.FieldWhere | astroquery/eso/core.py:383-397 | the primary `in (...)` constraint first, then the equality filters, then the circle when both coordinates are given |
| EsoQueries.QueryInstrumentOrCollection | astroquery/eso/core.py:366-401 | the help listing when asked; a missing primary filter fails; otherwise a query starting with `select` that returns its result and passes the caching choice on (its full text is stated by `FieldQueryText`) |
| EsoQueries.FieldQueryText | astroquery/eso/core.py:374-399 | the whole query text is `select [top n] <columns> from <table> where <constraints joined by and>`, sent with the caller's caching choice |
| EsoQueries.QueryMain | astroquery/eso/core.py:433-483 | the help listing passes the caching choice; the main query does not pass it and starts with `select` |
| EsoQueries.QueryMainUnfiltered | astroquery/eso/core.py:464-481 | without filters the main query has no where clause |
| EsoQueries.QueryMainFiltered | astroquery/eso/core.py:464-481 | with filters every filter is one `k = v` constraint, in order, with the column filters winning |
| EsoHeaders.ConvertValue | astroquery/eso/core.py:528-538 | an empty value is an error; `T` and `F` are the booleans and the only values that become booleans; a value opening with a single quote is exactly the quoted text between its first and last characters, and only such a value is text; anything else is kept as real or integer text, real iff it has a dot |
| EsoHeaders.ConvertQuoted | astroquery/eso/core.py:533-534 | a value in single quotes comes back as the text between them |
| EsoHeaders.ParseLine | astroquery/eso/core.py:523-541 | a line with `=` gives the stripped key before the first `=` unless it starts with `COMMENT`, which is skipped; any other line with `=` is an entry or an error, and an error only when the value part strips to nothing; a line without `=` stops the parse iff it starts with `END`, and is skipped otherwise |
| EsoHeaders.ParseLineRoundTrip | astroquery/eso/core.py:523-538 | a card `key = value / comment`, with any whitespace before the key, around `=` and after the value, and with or without the comment, parses to its key and the converted value, or to the conversion's error, when key and value are plain |
| EsoHeaders.FitsBooleanCard | astroquery/eso/core.py:523-531 | a padded `T`/`F` card such as `SIMPLE  =                    T / comment` parses to that keyword and its boolean, for any blank padding and comment |
| EsoHeaders.FitsIntegerCard | astroquery/eso/core.py:523-538 | a right-aligned integer card without a comment, such as `NAXIS1  =                 2048`, parses to that keyword and the integer |
| EsoHeaders.ConvertDigits | astroquery/eso/core.py:537-538 | a non-empty string of digits converts to an integer |
| EsoHeaders.ParseStopsAtEnd | astroquery/eso/core.py:540-541 | nothing after an `END` line matters |
| EsoHeaders.ParseKeys | astroquery/eso/core.py:522-539 | parsing keeps every key once, keeps the keys already present, and adds no `COMMENT` key |
| EsoHeaders.ParseHeader | astroquery/eso/core.py:521-542 | a parsed header always holds `DP.ID` and no key twice |
| EsoHeaders.ParseHeaderRoundTrip | astroquery/eso/core.py:521-542 | a page of plain cards (padded or not, with or without comment) with distinct keys, then `END`, then anything, parses to `DP.ID` followed by every card's key and converted value in page order |
| EsoHeaders.ColumnsSpec | astroquery/eso/core.py:544-550 | the columns are exactly the keys seen, each once, each typed by its first-seen value |
| EsoHeaders.FillSpec | astroquery/eso/core.py:552-555 | a filled row keeps its own values and holds the type default for each missing column |
| EsoHeaders.UnifySpec | astroquery/eso/core.py:543-555 | after unification every row holds every column: its own value, or the default of the type of the column's first-seen value |
| EsoHeaders.GetHeaders | astroquery/eso/core.py:485-557 | the call succeeds iff every product's page parses; then one row per product id, without repeated keys, whose every cell is that product's own value or the default of the column's first-seen type; the first row lists the columns in first-seen order |
| EsoHeaders.FirstRowColumns | astroquery/eso/core.py:543-557 | after unification the first row's keys are every key in first-seen order: the first product's keys, then each later product's new keys |
| EsoHeaders.ParseAll | astroquery/eso/core.py:514-542 | all pages parse iff every page parses on its own, and then each row is that page's header |
| EsoFiles.GetFilenameFromResponse | astroquery/eso/core.py:559-565 | an error iff the header has no `filename=` match; a found name has no quote, slash or whitespace |
| EsoFiles.FilenameRoundTrip | astroquery/eso/core.py:562-565 | `filename=<name>`, after any `=`-free text such as `attachment; ` and followed by whitespace or nothing, gives back the plain name |
| EsoFiles.QuotedFilenameRoundTrip | astroquery/eso/core.py:562-565 | `filename="<name>"`, after any `=`-free text such as `attachment; ` and followed by whitespace or nothing, gives back the plain name without its quotes |
| EsoFiles.FilenameMatchSkip | astroquery/eso/core.py:562 | the first `filename=` match is not changed by a `=`-free text in front of a `filename…` header |
| EsoFiles.FindCachedFile | astroquery/eso/core.py:567-576 | found iff the file exists, or it is a `fits.Z`/`fits.gz` file whose name without the last extension exists |
| EsoFiles.UnzipFile | astroquery/eso/core.py:623-639 | a file that is not `fits.Z`/`fits.gz` is kept; a compressed file becomes its name without the last extension, whether it existed uncompressed already or `gunzip` succeeded; it is an error iff it must be decompressed and `gunzip` fails |
| EsoFiles.UnzipGz | astroquery/eso/core.py:630-631 | `x.fits.gz` and `x.fits.Z` decompress to `x.fits` |
| EsoFiles.GetAssociatedFiles | astroquery/eso/core.py:685-712 | an HTTP error, an XML reply without a file name, or an unexpected content type fails; otherwise the associated names minus the input datasets |
| EsoFiles.SortStrings | astroquery/eso/core.py:769 | the result is sorted and is a permutation of the input |
| EsoFiles.Batches | astroquery/eso/core.py:768-771 | every batch holds between one and 100 names, and all but the last hold exactly 100 |
| EsoFiles.BatchesCover | astroquery/eso/core.py:768-771 | the batches concatenated are the input, so each name is sent exactly once, in order |
| EsoFiles.CalibrationPerBatch | astroquery/eso/core.py:770-772 | a name is collected iff some batch's CalSelector answer holds it and that batch's own datasets do not; the collection fails iff some batch's request fails |
| EsoFiles.RetrieveCalibrationAsWritten | astroquery/eso/core.py:759-772 | an invalid `with_calib` fails; no calibration is asked without it; otherwise the per-batch collection over the sorted datasets cut into batches of 100 |
| EsoFiles.CrossBatchDuplicate | astroquery/eso/core.py:765-772 | with more than 100 distinct datasets, a service that associates every dataset with all of them makes the written code return an input dataset as a calibration file |
| EsoFiles.RetrieveCalibration | astroquery/eso/core.py:712 | the corrected calibration set holds no input dataset; it fails exactly when the written version fails |
| EsoFiles.SingleBatch | astroquery/eso/core.py:768-771 | up to 100 datasets go out in one batch, which is one `get_associated_files` call on the sorted datasets |
| EsoFiles.FewDatasetsAgree | astroquery/eso/core.py:759-772 | with at most 100 datasets the written batching and the corrected calibration agree |
| EsoFiles.SetToSeq | astroquery/eso/core.py:772 | `list(set(...))` holds each element of the set exactly once |
| EsoFiles.ReturnShape | astroquery/eso/core.py:783 | the files returned, read as a list, are the files given; a single name is returned iff a single string was asked for and exactly one file resulted |
| EsoFiles.DownloadList | astroquery/eso/core.py:753-777 | the caller's datasets first, then each calibration file of the written batching once; it fails iff the calibration fails; with at most 100 distinct datasets the list has no repetition |
| EsoFiles.DownloadListCorrected | astroquery/eso/core.py:753-777 | with the corrected calibration: the datasets first, then each calibration file that is not a dataset once, so distinct datasets give a list without repetition however many there are |
| EsoFiles.AppendCalibration | astroquery/eso/core.py:777 | the datasets keep their place at the front and are followed by each calibration name once; a calibration failure is passed on |
| AlmaSql.KeyFragments | astroquery/alma/core.py:182-193 | the fragments a constraint generates are all non-empty |
| AlmaSql.GenSqlShape | astroquery/alma/core.py:176-207 | the query starts with `select * from ivoa.obscore`; it has ` WHERE ` iff some fragment is non-empty, with the fragments joined by ` AND `; when no constraint names two entries, the call fails iff some constraint names none |
| AlmaSql.UnusedSpec | astroquery/alma/core.py:199-205 | a constraint is left over iff it names no entry of the table |
| AlmaSql.ScanForms | astroquery/alma/core.py:182-199 | one constraint's pass over the table fails iff it names two entries; otherwise it appends that constraint's fragments to the where text and removes the constraint when it named an entry |
| AlmaSql.AddWhere | astroquery/alma/core.py:188-193 | an empty fragment changes nothing; a non-empty one ends the result, opens with ` WHERE ` when the text was empty, and is appended after the text otherwise |
| AlmaSql.ScanStep | astroquery/alma/core.py:182-193 | one table entry scanned keeps the where text equal to the reference text of the fragments so far |
| AlmaSql.GenSql | astroquery/alma/core.py:176-207 | the source's loops compute the reference result: the first doubly named constraint is a key error, left-over constraints are refused with their values, otherwise the select with the where text |
| AlmaSql.EmptyPayload | astroquery/alma/core.py:176-207 | an empty payload selects the whole table |
| AlmaSql.KwargValue | astroquery/alma/core.py:587-588 | a value that is not a list, or is not under `band_list`, is kept; a list under `band_list` becomes one text |
| AlmaSql.BandListRoundTrip | astroquery/alma/core.py:587-588 | splitting the `band_list` text at spaces gives each band's text back, in order, when no band's text holds a space |
| AlmaSql.MergeOne | astroquery/alma/core.py:589-592 | an argument already in the payload is appended to it with one space; a new one is added at the end; nothing else changes |
| AlmaSql.MergeKwargsGet | astroquery/alma/core.py:583-592 | after merging every keyword argument is combined with what the payload held, and other keys are untouched |
| AlmaSql.MergeKwargsValid | astroquery/alma/core.py:583-592 | merging keeps every key once |
| AlmaSql.QueryPayloadGet | astroquery/alma/core.py:583-602 | `science` and `public`, when given, overwrite `science_observation` and `public_data`; every other key has its merged value |
| AlmaSql.QueryPayloadValid | astroquery/alma/core.py:583-602 | the payload handed on has every key once |
| AlmaSql.QueryAsync | astroquery/alma/core.py:583-604 | the query is the reference `_gen_sql` result over the merged payload and the form-key table; a caller's payload dictionary is left holding that merged payload |
| AlmaSql.ReusedPayloadRepeats | astroquery/alma/core.py:583-592 | handing the same payload dictionary to a second query with the same text argument leaves that argument's value written twice, separated by a space |
| AlmaAuth.SetAuthHosts | astroquery/alma/core.py:335-349 | `None` is refused; a list replaces the hosts and leaves a chosen host in place |
| AlmaAuth.FirstOk | astroquery/alma/core.py:353-361 | the first host in list order whose probe answers 200, or none when no host does |
| AlmaAuth.GetValidHost | astroquery/alma/core.py:351-366 | a chosen host is returned without probing; otherwise hosts are probed in order up to the first that answers 200, which is kept; if none answers, a login error names the hosts |
| AlmaAuth.GetValidHostTwice | astroquery/alma/core.py:352-366 | once a host is found, a second call returns it again without probing |
| AlmaAuth.ClassifyLogin | astroquery/alma/core.py:391-403 | success iff the reply has no `error` and has `access_token`; an error without description is a key error; a wrong password is reported as the server put it; any other error carries the server's text and names the host; a reply with neither error nor token names the host |
| AlmaAuth.Login | astroquery/alma/core.py:368-403 | success only with a host whose reply has a token and no error; no usable host is a login error |
| AlmaUtils.CleanUid | astroquery/alma/core.py:1399-1408 | same length, no `/` or `:`, every other character kept |
| AlmaUtils.CleanUidIsReplace | astroquery/alma/core.py:1408 | cleaning is the two replacements of `/` and `:` by `_` |
| AlmaUtils.ReformUid | astroquery/alma/core.py:1411-1415 | the result starts with the first three characters and `://` |
| AlmaUtils.UidRoundTrip | astroquery/alma/core.py:1399-1415 | reforming the cleaned form of `uid://` and plain `/`-separated segments gives the uid back |
| AlmaUtils.FirstOccurrences | astroquery/alma/core.py:1418-1424 | the reference keeps exactly the elements of the input |
| AlmaUtils.FirstOccurrencesNoDup | astroquery/alma/core.py:1418-1424 | the reference repeats no element |
| AlmaUtils.FirstOccurrencesOfNoDup | astroquery/alma/core.py:1418-1424 | a list without repetition is kept as it is |
| AlmaUtils.Unique | astroquery/alma/core.py:1418-1424 | the one-pass loop gives the first occurrences in order: every input element once and nothing else |
| AlmaUtils.GetProjectMetadata | astroquery/alma/core.py:1381-1393 | a query is made iff the id has 14 characters with dots at 4, 6 and 12, and it names that id; a wrong length or format fails without a query; no rows fails; otherwise the first abstract |
| AlmaUtils.ProjectQueryInjective | astroquery/alma/core.py:1389-1391 | two ids give the same query iff they are equal |
| AlmaUtils.Flatten | astroquery/alma/core.py:1438-1448 | only items whose type is in the product list are collected |
| AlmaUtils.FlattenAppend | astroquery/alma/core.py:1439-1448 | flattening a list is flattening its parts in order, so the order is depth-first |
| AlmaUtils.FlattenNested | astroquery/alma/core.py:1441-1446 | a product under a level with one member OUS is given that uid |
| AlmaUtils.FlattenStopsAtProduct | astroquery/alma/core.py:1441-1443 | a product is collected with the uid handed down, and nothing below it is |
| AlmaUtils.FlattenDescends | astroquery/alma/core.py:1440-1448 | wherever it stands in a list, an item that is no product is replaced by the flattening of its children, under its single member OUS uid when it has exactly one and under none otherwise |
| AlmaUtils.UidJsonToTable | astroquery/alma/core.py:1432-1460 | no products is an error; otherwise the call succeeds iff every product's row has every key of the last row (tree links aside), and then the columns are those keys in order, each holding every product's value under it |
| AlmaUtils.ProductColumns | astroquery/alma/core.py:1452-1455 | building the columns for given names succeeds iff every row has every name, and then each column holds each row's value under its name |
| AlmaUtils.ColumnOfError | astroquery/alma/core.py:1454-1455 | a column fails iff some row lacks its key, and otherwise has one cell per row |
| PyText.StripIdempotent | astroquery/eso/utils.py:17 | stripping twice is stripping once |
| PyText.SplitJoin | astroquery/eso/utils.py:17 | splitting a join of separator-free pieces gives the pieces back |
| PyText.JoinSplit | astroquery/eso/utils.py:17 | joining the pieces of a split with the separator gives the text back |

## Left out

- Network and VO plumbing appear only as abstract outcomes:
  - pyvo TAP, SIA and DataLink calls;
  - `get_data_info` and `download_files`;
  - `_download_eso_file`, `_download_eso_files` and `_HEADER_data_size`;
  - the archive URL requests.
- `_unzip_files` is not modelled. It maps `_unzip_file` over a list.
- Local system effects are not modelled: `gunzip` as a process, file writes and renames, pickling, keyring and password prompts, logging and warnings. The outcome of `gunzip` and the set of existing files are parameters.
- The decoding of the token's base64 JSON payload is not modelled. The token's `exp` is a given integer.
- The XML association trees CalSelector returns are not parsed, and neither is the multipart message. Each reply carries the names it associates.
- The HTML page of `get_headers` is not parsed. Each product's page is the text inside its `<pre>` element.
- EsoHeaders.ConvertValue: header values are not converted by `float` and `int`, so the `ValueError` these raise on text that is not a number is not modelled; such a value stays text, typed real or integer by whether it contains a dot.
- `clean_uid` is modelled for text uids only. Its branch for numpy byte arrays is left out.
- Tables are column names and rows. astropy units, `Time`, legacy column mapping and the string cast of object columns are left out.
- The sky-region parsing of `get_enhanced_table` is left out. So are form scraping, help printing, the module singletons and the deprecation decorators.
- `eso_hash`, `sanitize_val`, `to_cache` and the `tapsql` generators are not defined in the code this model covers. They are function parameters.
- The `strptime` format check of `_is_timestamp_valid` is a predicate parameter.
- AlmaSql.GenSql: the model does not prove that the real form-key table has no two entries sharing a keyword or column. Generic over the table, the double-pop `KeyError` stays a possible outcome.
- AlmaUtils.Flatten: an item without a `type` key raises `KeyError` in the source (`astroquery/alma/core.py:1441`); the model treats such an item as no product. Every item of the model has `children` and `allMousUids` lists, so the `KeyError` for a missing one is not modelled either.
- Clock readings, token expiry times, cache timeouts and file modification times are integers (whole seconds); the source compares Python floats, so sub-second differences are not modelled.
- `repr` of a string is written without escapes. That is exact for text with no quote, backslash or unprintable character.

## Findings

| source | as written | input that shows it | evidently intended | confidence | as-written member | corrected member |
|---|---|---|---|---|---|---|
| astroquery/eso/core.py:765-772 | each batch of 100 datasets has only its own datasets removed from its calibration files, and the batch results are then merged | 101 distinct datasets, with a CalSelector that associates every dataset with all of them: the 101st dataset comes back as a calibration file of the first batch, so it is listed and requested twice | the calibration files exclude every input dataset, as `get_associated_files` does for one request | not executed | EsoFiles.RetrieveCalibrationAsWritten, EsoFiles.CrossBatchDuplicate, EsoFiles.DownloadList | EsoFiles.RetrieveCalibration, EsoFiles.DownloadListCorrected |
