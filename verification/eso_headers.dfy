/**
 `get_headers`: the text of each product's FITS header page is read line
 by line into a dictionary, and the dictionaries are then given the same
 columns, in first-seen order, missing cells taking the default value of
 the column's type. Numbers are kept as their text: the `float()` and
 `int()` conversions are not part of this model.
 */
module EsoHeaders {
  import opened Wrappers
  import opened PyText
  import opened PyDict

  /** A header value after conversion. */
  datatype HeaderValue = HBool(b: bool) | HText(s: string) | HReal(text: string) | HInteger(text: string)

  /** The Python type of a header value. */
  datatype Kind = BoolKind | TextKind | RealKind | IntKind

  function KindOf(v: HeaderValue): Kind {
    match v
    case HBool(_) => BoolKind
    case HText(_) => TextKind
    case HReal(_) => RealKind
    case HInteger(_) => IntKind
  }

  /** `column_type()`: `False`, `''`, `0.0` or `0`. */
  function Default(k: Kind): (v: HeaderValue)
    ensures KindOf(v) == k
  {
    match k
    case BoolKind => HBool(false)
    case TextKind => HText("")
    case RealKind => HReal("0.0")
    case IntKind => HInteger("0")
  }

  /** An empty value has no first character to test: an `IndexError`. */
  datatype HeaderError = EmptyValue(key: string)

  /** `v[1:-1]`. */
  function Inner(v: string): string {
    if |v| >= 2 then v[1..|v| - 1] else ""
  }

  /** The conversion of a stripped value: `T` and `F` are booleans, a
      leading quote marks text whose first and last characters are dropped,
      a dot marks a float and anything else is an integer. */
  function ConvertValue(key: string, value: string): (r: Result<HeaderValue, HeaderError>)
    ensures r.Failure? <==> value == ""
    ensures value == "T" ==> r == Success(HBool(true))
    ensures value == "F" ==> r == Success(HBool(false))
    ensures r.Success? && r.value.HBool? ==> value == "T" || value == "F"
    ensures |value| > 0 && value[0] == '\'' ==> r == Success(HText(Inner(value)))
    ensures r.Success? && r.value.HText? ==> value[0] == '\''
    ensures r.Success? && (r.value.HReal? || r.value.HInteger?) ==>
              && value[0] != '\'' && (r.value.HReal? <==> '.' in value)
              && (r.value.HReal? ==> r.value.text == value) && (r.value.HInteger? ==> r.value.text == value)
  {
    if value == "T" then Success(HBool(true))
    else if value == "F" then Success(HBool(false))
    else if |value| == 0 then Failure(EmptyValue(key))
    else if value[0] == '\'' then Success(HText(Inner(value)))
    else if '.' in value then Success(HReal(value))
    else Success(HInteger(value))
  }

  /** Quoted text comes back without its quotes. */
  lemma ConvertQuoted(key: string, s: string)
    ensures ConvertValue(key, "'" + s + "'") == Success(HText(s))
  {
    assert Inner("'" + s + "'") == s;
  }

  /** A non-empty string of decimal digits. */
  predicate Digits(s: string) {
    |s| > 0 && forall k :: 0 <= k < |s| ==> '0' <= s[k] <= '9'
  }

  /** A string of digits is an integer. */
  lemma ConvertDigits(key: string, digits: string)
    requires Digits(digits)
    ensures ConvertValue(key, digits) == Success(HInteger(digits))
  {
    assert digits != "T" && digits != "F" by {
      assert digits[0] != 'T' && digits[0] != 'F';
    }
    assert '.' !in digits;
  }

  /** What one line of the header page contributes. */
  datatype LineResult = Entry(key: string, value: HeaderValue) | Skip | Stop | Bad(error: HeaderError)

  /** `s.split(c, 1)[0]`. */
  function BeforeFirst(s: string, c: char): (r: string)
    ensures |r| <= |s| && r == s[..|r|] && c !in r
    ensures c in s ==> s[|r|] == c
  {
    if c in s then s[..IndexOf(s, c)] else s
  }

  /** `s.split(c, 1)[1]` for a string that holds `c`. */
  function AfterFirst(s: string, c: char): (r: string)
    requires c in s
    ensures s == BeforeFirst(s, c) + [c] + r
  {
    var i := IndexOf(s, c);
    assert s == s[..i] + [c] + s[i + 1..];
    s[i + 1..]
  }

  /** One line: a `key = value / comment` line gives an entry unless its key
      starts with `COMMENT`; a line without `=` starting with `END` ends the
      header; anything else is ignored. */
  function ParseLine(line: string): (r: LineResult)
    ensures r.Entry? ==> '=' in line && r.key == Strip(BeforeFirst(line, '=')) && !StartsWith(r.key, "COMMENT")
    ensures r.Stop? <==> '=' !in line && StartsWith(line, "END")
    ensures '=' in line && StartsWith(Strip(BeforeFirst(line, '=')), "COMMENT") ==> r.Skip?
    ensures '=' !in line && !StartsWith(line, "END") ==> r.Skip?
    ensures '=' in line && !StartsWith(Strip(BeforeFirst(line, '=')), "COMMENT") ==> r.Entry? || r.Bad?
    ensures r.Bad? ==> '=' in line && Strip(BeforeFirst(AfterFirst(line, '='), '/')) == ""
  {
    if '=' in line then
      var key := Strip(BeforeFirst(line, '='));
      var value := Strip(BeforeFirst(AfterFirst(line, '='), '/'));
      if StartsWith(key, "COMMENT") then Skip
      else match ConvertValue(key, value)
        case Success(v) => Entry(key, v)
        case Failure(e) => Bad(e)
    else if StartsWith(line, "END") then Stop
    else Skip
  }

  /** Cutting `a + [c] + b` at its first `c`, when `a` holds none. */
  lemma SplitAt(a: string, c: char, b: string)
    requires c !in a
    ensures c in a + [c] + b
    ensures BeforeFirst(a + [c] + b, c) == a && AfterFirst(a + [c] + b, c) == b
  {
    var s := a + [c] + b;
    assert s[|a|] == c && s[..|a|] == a;
    IndexOfUnique(s, c, |a|);
  }

  /** A header card: `KEY = value / comment`, with any whitespace before
      the key, around `=` and after the value, and with or without the
      comment. FITS pads keys to eight columns and right-aligns numbers,
      as in `NAXIS1  =                 2048`. */
  datatype Card = Card(lead: string, key: string, beforeEq: string, afterEq: string,
                       value: string, afterValue: string, comment: Option<string>)

  /** The card's line. */
  function CardLine(c: Card): string {
    (c.lead + c.key + c.beforeEq) + ['='] + CardRest(c)
  }

  /** What follows the card's `=`. */
  function CardRest(c: Card): string {
    (c.afterEq + c.value + c.afterValue) + CommentPart(c.comment)
  }

  /** `/ comment` when the card has one. */
  function CommentPart(comment: Option<string>): string {
    match comment
    case None => ""
    case Some(t) => ['/'] + t
  }

  /** A card in the usual layout: the padding is whitespace, key and value
      have no surrounding whitespace, the key has no `=` and is not a
      comment, and the value has no `/`. */
  predicate PlainCard(c: Card) {
    && AllSpace(c.lead) && AllSpace(c.beforeEq) && AllSpace(c.afterEq) && AllSpace(c.afterValue)
    && '=' !in c.key && Strip(c.key) == c.key && !StartsWith(c.key, "COMMENT")
    && '/' !in c.value && Strip(c.value) == c.value
  }

  /** Reading a card's line gives back its key with its converted value. */
  lemma ParseLineRoundTrip(c: Card)
    requires PlainCard(c)
    ensures ParseLine(CardLine(c)) == match ConvertValue(c.key, c.value)
              case Success(v) => Entry(c.key, v)
              case Failure(e) => Bad(e)
  {
    CardKeyPart(c);
    CardValuePart(c);
  }

  /** The text before the card's first `=` is its key, padded. */
  lemma CardKeyPart(c: Card)
    requires AllSpace(c.lead) && AllSpace(c.beforeEq) && '=' !in c.key && Strip(c.key) == c.key
    ensures '=' in CardLine(c) && Strip(BeforeFirst(CardLine(c), '=')) == c.key
    ensures AfterFirst(CardLine(c), '=') == CardRest(c)
  {
    NotInSpaces(c.lead, '=');
    NotInSpaces(c.beforeEq, '=');
    assert '=' !in c.lead + c.key + c.beforeEq;
    SplitAt(c.lead + c.key + c.beforeEq, '=', CardRest(c));
    StripPads(c.lead, c.key, c.beforeEq);
  }

  /** The text between the card's `=` and its first `/` is its value,
      padded. */
  lemma CardValuePart(c: Card)
    requires AllSpace(c.afterEq) && AllSpace(c.afterValue) && '/' !in c.value && Strip(c.value) == c.value
    ensures Strip(BeforeFirst(CardRest(c), '/')) == c.value
  {
    NotInSpaces(c.afterEq, '/');
    NotInSpaces(c.afterValue, '/');
    NotInConcat(c.afterEq, c.value, c.afterValue, '/');
    BeforeComment(c.afterEq + c.value + c.afterValue, c.comment);
    StripPads(c.afterEq, c.value, c.afterValue);
  }

  lemma NotInConcat(a: string, b: string, d: string, x: char)
    requires x !in a && x !in b && x !in d
    ensures x !in a + b + d
  {
  }

  /** A comment, if any, starts at the first `/` after a `/`-free front. */
  lemma BeforeComment(front: string, comment: Option<string>)
    requires '/' !in front
    ensures BeforeFirst(front + CommentPart(comment), '/') == front
  {
    match comment {
      case None =>
        assert front + CommentPart(comment) == front;
      case Some(t) =>
        assert front + CommentPart(comment) == front + ['/'] + t;
        SplitAt(front, '/', t);
    }
  }

  /** Characters a FITS keyword is made of: capitals, digits, `-`, `_`. */
  predicate KeywordChars(s: string) {
    |s| > 0 && forall k :: 0 <= k < |s| ==> 'A' <= s[k] <= 'Z' || '0' <= s[k] <= '9' || s[k] == '-' || s[k] == '_'
  }

  /** A keyword-like word is plain: no `=`, `/` or `.`, and no surrounding
      whitespace. */
  lemma PlainWord(s: string)
    requires KeywordChars(s)
    ensures '=' !in s && '/' !in s && '.' !in s && Strip(s) == s
  {
    StripKeepsClean(s);
  }

  lemma DigitsAreKeywordChars(s: string)
    requires Digits(s)
    ensures KeywordChars(s)
  {
  }

  /** `T` and `F` are keyword-like and convert to their booleans. */
  lemma FlagValue(key: string, b: bool)
    ensures KeywordChars(if b then "T" else "F")
    ensures ConvertValue(key, if b then "T" else "F") == Success(HBool(b))
  {
  }

  /** A boolean card as the archive pads it, such as
      `SIMPLE  =                    T / conforms to FITS standard`: any
      keyword, any blank padding and any comment. */
  lemma FitsBooleanCard(key: string, b: bool, keyPad: nat, valuePad: nat, tailPad: nat, comment: string)
    requires KeywordChars(key) && !StartsWith(key, "COMMENT")
    ensures ParseLine(CardLine(Card("", key, Blanks(keyPad), Blanks(valuePad), if b then "T" else "F",
                                    Blanks(tailPad), Some(comment))))
            == Entry(key, HBool(b))
  {
    var c := Card("", key, Blanks(keyPad), Blanks(valuePad), if b then "T" else "F", Blanks(tailPad), Some(comment));
    FlagValue(key, b);
    BlanksAreSpace(keyPad);
    BlanksAreSpace(valuePad);
    BlanksAreSpace(tailPad);
    PlainKeyValue(key, c.value);
    PaddedCard(c);
    ParseLineRoundTrip(c);
  }

  /** An integer card right-aligned without a comment, such as
      `NAXIS1  =                 2048`: any keyword, any digits and any
      blank padding. */
  lemma FitsIntegerCard(key: string, digits: string, keyPad: nat, valuePad: nat)
    requires KeywordChars(key) && !StartsWith(key, "COMMENT")
    requires Digits(digits)
    ensures ParseLine(CardLine(Card("", key, Blanks(keyPad), Blanks(valuePad), digits, "", None)))
            == Entry(key, HInteger(digits))
  {
    var c := Card("", key, Blanks(keyPad), Blanks(valuePad), digits, "", None);
    ConvertDigits(key, digits);
    DigitsAreKeywordChars(digits);
    BlanksAreSpace(keyPad);
    BlanksAreSpace(valuePad);
    PlainKeyValue(key, digits);
    PaddedCard(c);
    ParseLineRoundTrip(c);
  }

  /** The parts of `PlainCard`, gathered. */
  lemma PaddedCard(c: Card)
    requires AllSpace(c.lead) && AllSpace(c.beforeEq) && AllSpace(c.afterEq) && AllSpace(c.afterValue)
    requires '=' !in c.key && Strip(c.key) == c.key && !StartsWith(c.key, "COMMENT")
    requires '/' !in c.value && Strip(c.value) == c.value
    ensures PlainCard(c)
  {
  }

  /** Keyword-like keys and values are plain. */
  lemma PlainKeyValue(key: string, value: string)
    requires KeywordChars(key) && KeywordChars(value)
    ensures '=' !in key && Strip(key) == key && '/' !in value && Strip(value) == value
  {
    PlainWord(key);
    PlainWord(value);
  }

  /** The lines read into `acc` in order, up to the first `END` line. */
  function ParseLines(lines: seq<string>, acc: Dict<HeaderValue>): Result<Dict<HeaderValue>, HeaderError> {
    if |lines| == 0 then Success(acc)
    else match ParseLine(lines[0])
      case Entry(k, v) => ParseLines(lines[1..], Put(acc, k, v))
      case Skip => ParseLines(lines[1..], acc)
      case Stop => Success(acc)
      case Bad(e) => Failure(e)
  }

  /** Nothing after an `END` line matters. */
  lemma {:induction false} ParseStopsAtEnd(pre: seq<string>, endLine: string, post: seq<string>, acc: Dict<HeaderValue>)
    requires ParseLine(endLine).Stop?
    ensures ParseLines(pre + [endLine] + post, acc) == ParseLines(pre, acc)
  {
    if |pre| == 0 {
      assert (pre + [endLine] + post)[0] == endLine;
    } else {
      assert (pre + [endLine] + post)[1..] == pre[1..] + [endLine] + post;
      match ParseLine(pre[0])
      case Entry(k, v) => ParseStopsAtEnd(pre[1..], endLine, post, Put(acc, k, v));
      case Skip => ParseStopsAtEnd(pre[1..], endLine, post, acc);
      case Stop =>
      case Bad(e) =>
    }
  }

  /** Parsing keeps the dictionary free of repeated keys and only adds keys
      that are not comments. */
  lemma {:induction false} ParseKeys(lines: seq<string>, acc: Dict<HeaderValue>)
    requires ValidDict(acc)
    ensures var r := ParseLines(lines, acc);
      r.Success? ==> ValidDict(r.value)
                     && (forall k :: k in Keys(acc) ==> k in Keys(r.value))
                     && (forall k :: k in Keys(r.value) && k !in Keys(acc) ==> !StartsWith(k, "COMMENT"))
  {
    if |lines| > 0 {
      match ParseLine(lines[0])
      case Entry(k, v) =>
        PutDelValid(acc, k, v);
        ParseKeys(lines[1..], Put(acc, k, v));
      case Skip => ParseKeys(lines[1..], acc);
      case Stop =>
      case Bad(e) =>
    }
  }

  function CardLines(cards: seq<Card>): (r: seq<string>)
    ensures |r| == |cards|
  {
    if |cards| == 0 then [] else [CardLine(cards[0])] + CardLines(cards[1..])
  }

  function CardKeys(cards: seq<Card>): (r: seq<string>)
    ensures |r| == |cards| && forall i :: 0 <= i < |cards| ==> r[i] == cards[i].key
  {
    if |cards| == 0 then [] else [cards[0].key] + CardKeys(cards[1..])
  }

  /** A plain card whose value converts. */
  predicate GoodCard(c: Card) {
    PlainCard(c) && ConvertValue(c.key, c.value).Success?
  }

  predicate GoodCards(cards: seq<Card>) {
    |cards| == 0 || (GoodCard(cards[0]) && GoodCards(cards[1..]))
  }

  /** The entries good cards stand for, in order. */
  function Entries(cards: seq<Card>): Dict<HeaderValue>
    requires GoodCards(cards)
  {
    if |cards| == 0 then []
    else [(cards[0].key, ConvertValue(cards[0].key, cards[0].value).value)] + Entries(cards[1..])
  }

  /** Good cards with keys new to `acc` and to each other add their
      entries to `acc`, in order, and reading goes on after them. */
  lemma {:induction false} ParseCards(cards: seq<Card>, rest: seq<string>, acc: Dict<HeaderValue>)
    requires GoodCards(cards) && NoDup(Keys(acc) + CardKeys(cards))
    ensures ParseLines(CardLines(cards) + rest, acc) == ParseLines(rest, acc + Entries(cards))
  {
    if |cards| == 0 {
      assert CardLines(cards) + rest == rest;
      assert acc + Entries(cards) == acc;
    } else {
      var c := cards[0];
      var next := acc + [(c.key, ConvertValue(c.key, c.value).value)];
      ParseFirstCard(cards, rest, acc);
      KeysShift(acc, cards, ConvertValue(c.key, c.value).value);
      ParseCards(cards[1..], rest, next);
      EntriesShift(acc, cards);
    }
  }

  /** Reading the first card moves its entry into the dictionary. */
  lemma ParseFirstCard(cards: seq<Card>, rest: seq<string>, acc: Dict<HeaderValue>)
    requires |cards| > 0 && GoodCards(cards) && NoDup(Keys(acc) + CardKeys(cards))
    ensures ParseLines(CardLines(cards) + rest, acc)
            == ParseLines(CardLines(cards[1..]) + rest, acc + [(cards[0].key, ConvertValue(cards[0].key, cards[0].value).value)])
  {
    assert CardLines(cards)[0] == CardLine(cards[0]) && CardLines(cards)[1..] == CardLines(cards[1..]);
    ConsAppend(CardLines(cards), rest);
    FirstKeyFresh(acc, cards);
    ParseOneCard(cards[0], CardLines(cards[1..]) + rest, acc);
  }

  lemma EntriesShift(acc: Dict<HeaderValue>, cards: seq<Card>)
    requires |cards| > 0 && GoodCards(cards)
    ensures acc + [(cards[0].key, ConvertValue(cards[0].key, cards[0].value).value)] + Entries(cards[1..])
            == acc + Entries(cards)
  {
  }

  /** One good card with a new key is added at the end. */
  lemma ParseOneCard(c: Card, more: seq<string>, acc: Dict<HeaderValue>)
    requires GoodCard(c) && c.key !in Keys(acc)
    ensures ParseLines([CardLine(c)] + more, acc)
            == ParseLines(more, acc + [(c.key, ConvertValue(c.key, c.value).value)])
  {
    ParseLineRoundTrip(c);
    PutFresh(acc, c.key, ConvertValue(c.key, c.value).value);
    assert ([CardLine(c)] + more)[0] == CardLine(c) && ([CardLine(c)] + more)[1..] == more;
  }

  lemma FirstKeyFresh(acc: Dict<HeaderValue>, cards: seq<Card>)
    requires |cards| > 0 && NoDup(Keys(acc) + CardKeys(cards))
    ensures cards[0].key !in Keys(acc)
  {
    NoDupParts(Keys(acc), CardKeys(cards));
    assert cards[0].key in CardKeys(cards);
  }

  /** Moving the first card's key into the dictionary keeps the keys. */
  lemma KeysShift(acc: Dict<HeaderValue>, cards: seq<Card>, v: HeaderValue)
    requires |cards| > 0
    ensures Keys(acc + [(cards[0].key, v)]) + CardKeys(cards[1..]) == Keys(acc) + CardKeys(cards)
  {
    KeysAppend(acc, [(cards[0].key, v)]);
    assert Keys([(cards[0].key, v)]) == [cards[0].key];
    assert CardKeys(cards) == [cards[0].key] + CardKeys(cards[1..]);
    AppendAssoc(Keys(acc), [cards[0].key], CardKeys(cards[1..]));
  }

  /** One product's header: `DP.ID` first, then the lines of the page. */
  function ParseHeader(dpId: string, page: string): (r: Result<Dict<HeaderValue>, HeaderError>)
    ensures r.Success? ==> ValidDict(r.value) && "DP.ID" in Keys(r.value)
  {
    var start: Dict<HeaderValue> := [("DP.ID", HText(dpId))];
    assert Keys(start) == ["DP.ID"];
    ParseKeys(Split(page, '\n'), start);
    ParseLines(Split(page, '\n'), start)
  }

  /** A page of good cards with distinct keys other than `DP.ID`, then an
      `END` line and anything after it, reads back as `DP.ID` followed by
      the cards' entries in order. */
  lemma ParseHeaderRoundTrip(dpId: string, cards: seq<Card>, tail: seq<string>)
    requires GoodCards(cards) && NoDup(["DP.ID"] + CardKeys(cards))
    requires forall i :: 0 <= i < |cards| ==> '\n' !in CardLine(cards[i])
    requires forall i :: 0 <= i < |tail| ==> '\n' !in tail[i]
    ensures ParseHeader(dpId, Join("\n", CardLines(cards) + ["END"] + tail))
            == Success([("DP.ID", HText(dpId))] + Entries(cards))
  {
    var start: Dict<HeaderValue> := [("DP.ID", HText(dpId))];
    assert Keys(start) == ["DP.ID"];
    PageLines(cards, tail);
    ParseCards(cards, ["END"] + tail, start);
    EndStops(tail, start + Entries(cards));
  }

  /** The page splits back into its lines. */
  lemma PageLines(cards: seq<Card>, tail: seq<string>)
    requires forall i :: 0 <= i < |cards| ==> '\n' !in CardLine(cards[i])
    requires forall i :: 0 <= i < |tail| ==> '\n' !in tail[i]
    ensures Split(Join("\n", CardLines(cards) + ["END"] + tail), '\n') == CardLines(cards) + (["END"] + tail)
  {
    CardLinesOneLine(cards);
    SplitLines(CardLines(cards), tail);
  }

  lemma SplitLines(front: seq<string>, tail: seq<string>)
    requires forall i :: 0 <= i < |front| ==> '\n' !in front[i]
    requires forall i :: 0 <= i < |tail| ==> '\n' !in tail[i]
    ensures Split(Join("\n", front + ["END"] + tail), '\n') == front + (["END"] + tail)
  {
    var lines := front + ["END"] + tail;
    forall i | 0 <= i < |lines| ensures '\n' !in lines[i] {
      if i < |front| {
        assert lines[i] == front[i];
      } else if i == |front| {
        assert lines[i] == "END";
      } else {
        assert lines[i] == tail[i - |front| - 1];
      }
    }
    SplitJoin(lines, '\n');
    AppendAssoc(front, ["END"], tail);
  }

  lemma {:induction false} CardLinesOneLine(cards: seq<Card>)
    requires forall i :: 0 <= i < |cards| ==> '\n' !in CardLine(cards[i])
    ensures forall i :: 0 <= i < |cards| ==> '\n' !in CardLines(cards)[i]
  {
    if |cards| > 0 {
      CardLinesOneLine(cards[1..]);
      assert forall i :: 1 <= i < |cards| ==> CardLines(cards)[i] == CardLines(cards[1..])[i - 1];
    }
  }

  /** An `END` line ends the header, whatever follows. */
  lemma EndStops(tail: seq<string>, acc: Dict<HeaderValue>)
    ensures ParseLines(["END"] + tail, acc) == Success(acc)
  {
    assert ParseLine("END").Stop? by {
      assert StartsWith("END", "END");
    }
    assert (["END"] + tail)[0] == "END";
  }

  // ---------------------------------------------------------------------------
  // Column unification

  /** Columns with their types, in first-seen order. */
  type ColumnSpec = seq<(string, Kind)>

  function Names(cols: ColumnSpec): seq<string> {
    if |cols| == 0 then [] else [cols[0].0] + Names(cols[1..])
  }

  /** The type recorded for a column, if any. */
  function KindIn(cols: ColumnSpec, k: string): (r: Option<Kind>)
    ensures r.Some? <==> k in Names(cols)
  {
    if |cols| == 0 then None
    else if cols[0].0 == k then Some(cols[0].1)
    else KindIn(cols[1..], k)
  }

  /** The columns after one more row: its new keys, with their types,
      appended in the row's order. */
  function Extend(cols: ColumnSpec, row: Dict<HeaderValue>): ColumnSpec
    decreases |row|
  {
    if |row| == 0 then cols
    else
      var (k, v) := row[0];
      Extend(if k in Names(cols) then cols else cols + [(k, KindOf(v))], row[1..])
  }

  /** The columns of all rows, in first-seen order. */
  function ColumnsOf(rows: seq<Dict<HeaderValue>>): ColumnSpec {
    if |rows| == 0 then [] else Extend(ColumnsOf(rows[..|rows| - 1]), rows[|rows| - 1])
  }

  /** The reference for a column's type: the value under `k` in the earliest
      row that has the key. */
  function FirstSeen(rows: seq<Dict<HeaderValue>>, k: string): Option<HeaderValue> {
    if |rows| == 0 then None
    else
      var earlier := FirstSeen(rows[..|rows| - 1], k);
      if earlier.Some? then earlier else Get(rows[|rows| - 1], k)
  }

  function KindOfOpt(v: Option<HeaderValue>): Option<Kind> {
    if v.Some? then Some(KindOf(v.value)) else None
  }

  lemma {:induction false} NamesAppend(cols: ColumnSpec, x: (string, Kind))
    ensures Names(cols + [x]) == Names(cols) + [x.0]
  {
    if |cols| > 0 {
      assert (cols + [x])[1..] == cols[1..] + [x];
      NamesAppend(cols[1..], x);
    }
  }

  lemma {:induction false} KindInAppend(cols: ColumnSpec, x: (string, Kind), k: string)
    ensures KindIn(cols + [x], k) == if k in Names(cols) then KindIn(cols, k) else if k == x.0 then Some(x.1) else None
  {
    NamesAppend(cols, x);
    if |cols| > 0 {
      assert (cols + [x])[1..] == cols[1..] + [x];
      KindInAppend(cols[1..], x, k);
    }
  }

  /** Extending keeps earlier columns and their types, and adds exactly the
      row's new keys with the type of their value. */
  lemma {:induction false} ExtendSpec(cols: ColumnSpec, row: Dict<HeaderValue>, k: string)
    ensures KindIn(Extend(cols, row), k) == if k in Names(cols) then KindIn(cols, k) else KindOfOpt(Get(row, k))
    ensures NoDup(Names(cols)) ==> NoDup(Names(Extend(cols, row)))
    decreases |row|
  {
    if |row| > 0 {
      var (k0, v0) := row[0];
      var next := if k0 in Names(cols) then cols else cols + [(k0, KindOf(v0))];
      ExtendSpec(next, row[1..], k);
      if k0 !in Names(cols) {
        KindInAppend(cols, (k0, KindOf(v0)), k);
        NamesAppend(cols, (k0, KindOf(v0)));
        if NoDup(Names(cols)) {
          AppendFreshNoDup(Names(cols), k0);
        }
      }
    }
  }

  /** The columns are exactly the keys seen, each once, each with the type
      of its first-seen value. */
  lemma {:induction false} ColumnsSpec(rows: seq<Dict<HeaderValue>>, k: string)
    ensures KindIn(ColumnsOf(rows), k) == KindOfOpt(FirstSeen(rows, k))
    ensures NoDup(Names(ColumnsOf(rows)))
  {
    if |rows| > 0 {
      var n := |rows| - 1;
      ColumnsSpec(rows[..n], k);
      ExtendSpec(ColumnsOf(rows[..n]), rows[n], k);
    }
  }

  /** One row with every column: a missing cell gets the default value of
      the column's type. */
  function Fill(row: Dict<HeaderValue>, cols: ColumnSpec): Dict<HeaderValue>
    decreases |cols|
  {
    if |cols| == 0 then row
    else Fill(if cols[0].0 in Keys(row) then row else Put(row, cols[0].0, Default(cols[0].1)), cols[1..])
  }

  lemma {:induction false} FillSpec(row: Dict<HeaderValue>, cols: ColumnSpec, k: string)
    ensures Get(Fill(row, cols), k) ==
            if k in Keys(row) then Get(row, k)
            else if k in Names(cols) then Some(Default(KindIn(cols, k).value)) else None
    ensures ValidDict(row) ==> ValidDict(Fill(row, cols))
    decreases |cols|
  {
    if |cols| > 0 {
      var (c, kind) := cols[0];
      var next := if c in Keys(row) then row else Put(row, c, Default(kind));
      FillSpec(next, cols[1..], k);
      if ValidDict(row) {
        PutDelValid(row, c, Default(kind));
      }
    }
  }

  /** Every row given every column. */
  function Unify(rows: seq<Dict<HeaderValue>>): (r: seq<Dict<HeaderValue>>)
    ensures |r| == |rows|
  {
    var cols := ColumnsOf(rows);
    seq(|rows|, i requires 0 <= i < |rows| => Fill(rows[i], cols))
  }

  /** The reference for a cell after unification: the row's own value,
      else the default of the type of the column's first-seen value, else
      nothing when no row has the key. */
  function UnifiedCell(rows: seq<Dict<HeaderValue>>, i: nat, k: string): Option<HeaderValue>
    requires i < |rows|
  {
    if k in Keys(rows[i]) then Get(rows[i], k)
    else if FirstSeen(rows, k).Some? then Some(Default(KindOf(FirstSeen(rows, k).value)))
    else None
  }

  /** After unification a row holds its own values, the type default of
      every column it lacked, and nothing else. */
  lemma UnifySpec(rows: seq<Dict<HeaderValue>>, i: nat, k: string)
    requires i < |rows|
    ensures Get(Unify(rows)[i], k) == UnifiedCell(rows, i, k)
  {
    FillSpec(rows[i], ColumnsOf(rows), k);
    ColumnsSpec(rows, k);
  }

  /** `get_headers`: the page for each product id is given by `page`. */
  function GetHeaders(productIds: seq<string>, page: string -> string): (r: Result<seq<Dict<HeaderValue>>, HeaderError>)
    ensures r.Success? <==> forall i :: 0 <= i < |productIds| ==> ParseHeader(productIds[i], page(productIds[i])).Success?
    ensures r.Success? ==> |r.value| == |productIds|
    ensures r.Success? ==> forall i :: 0 <= i < |productIds| ==> ValidDict(r.value[i])
    // each row keeps its own values, and a column it lacks gets the default
    // of the type of the column's first-seen value
    ensures r.Success? ==>
              forall i, k :: 0 <= i < |productIds| ==>
                Get(r.value[i], k) == UnifiedCell(ParseAll(productIds, page).value, i, k)
    // the table's columns, as the first row lists them, are the keys in
    // first-seen order
    ensures r.Success? && |productIds| > 0 ==>
              Keys(r.value[0]) == Names(ColumnsOf(ParseAll(productIds, page).value))
  {
    var parsed := ParseAll(productIds, page);
    if parsed.Failure? then Failure(parsed.error)
    else
      var rows := parsed.value;
      UnifyValid(rows);
      UnifyCells(rows);
      if |rows| > 0 then
        FirstRowColumns(rows);
        Success(Unify(rows))
      else
        Success(Unify(rows))
  }

  /** `UnifySpec` for every row and key. */
  lemma UnifyCells(rows: seq<Dict<HeaderValue>>)
    ensures forall i, k :: 0 <= i < |rows| ==> Get(Unify(rows)[i], k) == UnifiedCell(rows, i, k)
  {
    forall i, k | 0 <= i < |rows| ensures Get(Unify(rows)[i], k) == UnifiedCell(rows, i, k) {
      UnifySpec(rows, i, k);
    }
  }

  // ---------------------------------------------------------------------------
  // Column order of the resulting table

  /** The names among `keys` that are not in `present`, in order. */
  function Missing(keys: seq<string>, present: seq<string>): (r: seq<string>)
    ensures forall x :: x in r <==> x in keys && x !in present
  {
    if |keys| == 0 then []
    else (if keys[0] in present then [] else [keys[0]]) + Missing(keys[1..], present)
  }

  lemma MissingCons(x: string, xs: seq<string>, present: seq<string>)
    ensures Missing([x] + xs, present) == (if x in present then [] else [x]) + Missing(xs, present)
  {
    assert ([x] + xs)[0] == x && ([x] + xs)[1..] == xs;
  }

  lemma {:induction false} MissingAppend(a: seq<string>, b: seq<string>, present: seq<string>)
    ensures Missing(a + b, present) == Missing(a, present) + Missing(b, present)
  {
    if |a| > 0 {
      var h: seq<string> := if a[0] in present then [] else [a[0]];
      assert a + b == [a[0]] + (a[1..] + b);
      MissingCons(a[0], a[1..] + b, present);
      MissingAppend(a[1..], b, present);
      AppendAssoc(h, Missing(a[1..], present), Missing(b, present));
    } else {
      assert a + b == b;
    }
  }

  /** Nothing is missing when every name is present, and nothing is
      dropped when none is. */
  lemma {:induction false} MissingExtremes(keys: seq<string>, present: seq<string>)
    ensures (forall x :: x in keys ==> x in present) ==> Missing(keys, present) == []
    ensures (forall x :: x in keys ==> x !in present) ==> Missing(keys, present) == keys
  {
    if |keys| > 0 {
      MissingExtremes(keys[1..], present);
      assert keys == [keys[0]] + keys[1..];
    }
  }

  /** A name that is not among the keys does not change what is missing. */
  lemma {:induction false} MissingIgnores(keys: seq<string>, present: seq<string>, k: string)
    requires k !in keys
    ensures Missing(keys, present + [k]) == Missing(keys, present)
  {
    if |keys| > 0 {
      MissingIgnores(keys[1..], present, k);
    }
  }

  /** A row extends the columns by its keys not seen before, in its order. */
  lemma {:induction false} ExtendNames(cols: ColumnSpec, row: Dict<HeaderValue>)
    requires ValidDict(row)
    ensures Names(Extend(cols, row)) == Names(cols) + Missing(Keys(row), Names(cols))
    decreases |row|
  {
    if |row| > 0 {
      var (k, v) := row[0];
      assert Keys(row) == [k] + Keys(row[1..]);
      if k in Names(cols) {
        ExtendNames(cols, row[1..]);
      } else {
        NamesAppend(cols, (k, KindOf(v)));
        ExtendNames(cols + [(k, KindOf(v))], row[1..]);
        MissingIgnores(Keys(row[1..]), Names(cols), k);
        AppendAssoc(Names(cols), [k], Missing(Keys(row[1..]), Names(cols)));
      }
    }
  }

  /** Filling a row appends the columns it lacks, in column order. */
  lemma {:induction false} FillKeys(row: Dict<HeaderValue>, cols: ColumnSpec)
    requires NoDup(Names(cols))
    ensures Keys(Fill(row, cols)) == Keys(row) + Missing(Names(cols), Keys(row))
    decreases |cols|, 2
  {
    if |cols| > 0 {
      FillStep(row, cols);
    }
  }

  lemma FillStep(row: Dict<HeaderValue>, cols: ColumnSpec)
    requires |cols| > 0 && NoDup(Names(cols))
    ensures Keys(Fill(row, cols)) == Keys(row) + Missing(Names(cols), Keys(row))
    decreases |cols|, 1
  {
    var c := cols[0].0;
    var rest := Names(cols[1..]);
    assert Names(cols) == [c] + rest;
    assert NoDup(rest) && c !in rest;
    MissingCons(c, rest, Keys(row));
    if c in Keys(row) {
      assert Missing(Names(cols), Keys(row)) == Missing(rest, Keys(row));
      FillPresent(row, cols);
    } else {
      assert Missing(Names(cols), Keys(row)) == [c] + Missing(rest, Keys(row));
      FillAbsent(row, cols);
    }
  }

  lemma FillPresent(row: Dict<HeaderValue>, cols: ColumnSpec)
    requires |cols| > 0 && NoDup(Names(cols[1..])) && cols[0].0 in Keys(row)
    ensures Keys(Fill(row, cols)) == Keys(row) + Missing(Names(cols[1..]), Keys(row))
    decreases |cols|, 0
  {
    assert Fill(row, cols) == Fill(row, cols[1..]);
    FillKeys(row, cols[1..]);
  }

  lemma FillAbsent(row: Dict<HeaderValue>, cols: ColumnSpec)
    requires |cols| > 0 && NoDup(Names(cols[1..])) && cols[0].0 !in Keys(row) && cols[0].0 !in Names(cols[1..])
    ensures Keys(Fill(row, cols)) == Keys(row) + ([cols[0].0] + Missing(Names(cols[1..]), Keys(row)))
    decreases |cols|, 0
  {
    var (c, kind) := cols[0];
    var next := Put(row, c, Default(kind));
    assert Fill(row, cols) == Fill(next, cols[1..]);
    FillKeys(next, cols[1..]);
    MissingIgnores(Names(cols[1..]), Keys(row), c);
    AppendAssoc(Keys(row), [c], Missing(Names(cols[1..]), Keys(row)));
  }

  /** The first row's keys open the column list. */
  lemma {:induction false} ColumnsStart(rows: seq<Dict<HeaderValue>>)
    requires |rows| > 0 && ValidDict(rows[0])
    ensures |Names(ColumnsOf(rows))| >= |Keys(rows[0])|
    ensures Names(ColumnsOf(rows))[..|Keys(rows[0])|] == Keys(rows[0])
  {
    var n := |rows| - 1;
    if n == 0 {
      ExtendNames([], rows[0]);
      MissingExtremes(Keys(rows[0]), []);
    } else {
      assert rows[..n][0] == rows[0];
      ColumnsStart(rows[..n]);
      ExtendPrefix(ColumnsOf(rows[..n]), rows[n]);
    }
  }

  /** Extending never changes the columns already there. */
  lemma {:induction false} ExtendPrefix(cols: ColumnSpec, row: Dict<HeaderValue>)
    ensures |Names(Extend(cols, row))| >= |Names(cols)|
    ensures Names(Extend(cols, row))[..|Names(cols)|] == Names(cols)
    decreases |row|
  {
    if |row| > 0 {
      var (k, v) := row[0];
      if k in Names(cols) {
        ExtendPrefix(cols, row[1..]);
      } else {
        NamesAppend(cols, (k, KindOf(v)));
        ExtendPrefix(cols + [(k, KindOf(v))], row[1..]);
        assert (Names(cols) + [k])[..|Names(cols)|] == Names(cols);
      }
    } else {
      assert Names(cols)[..|Names(cols)|] == Names(cols);
    }
  }

  /** The table's columns, read from its first row, are every key in the
      order it was first seen: the first product's keys, then each later
      product's new keys. */
  lemma FirstRowColumns(rows: seq<Dict<HeaderValue>>)
    requires |rows| > 0 && ValidDict(rows[0])
    ensures Keys(Unify(rows)[0]) == Names(ColumnsOf(rows))
  {
    var cols := ColumnsOf(rows);
    var K := Keys(rows[0]);
    ColumnsSpec(rows, "");
    ColumnsStart(rows);
    var T := Names(cols)[|K|..];
    SplitNames(Names(cols), K);
    FillKeys(rows[0], cols);
    MissingOwnTail(K, T);
    assert Unify(rows)[0] == Fill(rows[0], cols);
  }

  lemma SplitNames(names: seq<string>, K: seq<string>)
    requires |names| >= |K| && names[..|K|] == K
    ensures names == K + names[|K|..]
  {
  }

  /** Against a list that has no repetition and opens with `K`, what `K`
      lacks is the rest of the list. */
  lemma MissingOwnTail(K: seq<string>, T: seq<string>)
    requires NoDup(K + T)
    ensures Missing(K + T, K) == T
  {
    NoDupParts(K, T);
    MissingAppend(K, T, K);
    MissingExtremes(K, K);
    MissingExtremes(T, K);
  }

  /** Unified rows are dictionaries. */
  lemma UnifyValid(rows: seq<Dict<HeaderValue>>)
    requires forall i :: 0 <= i < |rows| ==> ValidDict(rows[i])
    ensures forall i :: 0 <= i < |rows| ==> ValidDict(Unify(rows)[i])
  {
    forall i | 0 <= i < |rows| ensures ValidDict(Unify(rows)[i]) {
      FillSpec(rows[i], ColumnsOf(rows), "DP.ID");
    }
  }

  /** The headers of all products in order; the first failure ends it. */
  function ParseAll(productIds: seq<string>, page: string -> string): (r: Result<seq<Dict<HeaderValue>>, HeaderError>)
    ensures r.Success? <==> forall i :: 0 <= i < |productIds| ==> ParseHeader(productIds[i], page(productIds[i])).Success?
    ensures r.Success? ==> |r.value| == |productIds|
    ensures r.Success? ==> forall i :: 0 <= i < |productIds| ==>
                             ParseHeader(productIds[i], page(productIds[i])) == Success(r.value[i])
  {
    if |productIds| == 0 then Success([])
    else
      var first := ParseHeader(productIds[0], page(productIds[0]));
      if first.Failure? then Failure(first.error)
      else
        var rest := ParseAll(productIds[1..], page);
        if rest.Failure? then Failure(rest.error)
        else Success([first.value] + rest.value)
  }
}
