/**
 Python's text behaviour that the archive clients rely on: `str.strip`,
 `str.split` on one character, `str.join`, `str.replace`, prefix and suffix
 tests, substring search, string ordering and the `str()` rendering of the
 scalar values that appear in queries and payloads.
 */
module PyText {
  import opened Wrappers

  /** `str.isspace` for one character: the Unicode whitespace set Python uses
      for `str.strip()` and for `\s`/`\S` in `re` patterns. */
  predicate IsSpace(c: char) {
    var n := c as int;
    (0x09 <= n <= 0x0D || 0x1C <= n <= 0x20 || n == 0x85 || n == 0xA0 || n == 0x1680
     || 0x2000 <= n <= 0x200A || n == 0x2028 || n == 0x2029 || n == 0x202F || n == 0x205F
     || n == 0x3000)
  }

  /** Every character of `s` is whitespace. */
  predicate AllSpace(s: string) {
    |s| == 0 || (IsSpace(s[0]) && AllSpace(s[1..]))
  }

  lemma {:induction false} AllSpaceAt(s: string, i: nat)
    requires AllSpace(s) && i < |s|
    ensures IsSpace(s[i])
  {
    if i > 0 {
      AllSpaceAt(s[1..], i - 1);
    }
  }

  lemma {:induction false} AllSpaceConcat(a: string, b: string)
    requires AllSpace(a) && AllSpace(b)
    ensures AllSpace(a + b)
  {
    if |a| > 0 {
      assert (a + b)[1..] == a[1..] + b;
      AllSpaceConcat(a[1..], b);
    } else {
      assert a + b == b;
    }
  }

  /** `n` blanks, as fixed-format text pads its fields. */
  function Blanks(n: nat): (r: string)
    ensures |r| == n
  {
    if n == 0 then "" else [' '] + Blanks(n - 1)
  }

  lemma {:induction false} BlanksAreSpace(n: nat)
    ensures AllSpace(Blanks(n))
  {
    if n > 0 {
      assert Blanks(n)[1..] == Blanks(n - 1);
      BlanksAreSpace(n - 1);
    }
  }

  /** `str.lstrip()`: drops the longest whitespace prefix. */
  function LStrip(s: string): (r: string)
    ensures |r| <= |s| && r == s[|s| - |r|..]
    ensures AllSpace(s[..|s| - |r|])
    ensures |r| > 0 ==> !IsSpace(r[0])
  {
    if |s| > 0 && IsSpace(s[0]) then
      var r := LStrip(s[1..]);
      var k := |s| - |r|;
      assert s[..k][1..] == s[1..][..k - 1];
      r
    else s
  }

  /** `str.rstrip()`: drops the longest whitespace suffix. */
  function RStrip(s: string): (r: string)
    ensures |r| <= |s| && r == s[..|r|]
    ensures AllSpace(s[|r|..])
    ensures |r| > 0 ==> !IsSpace(r[|r| - 1])
  {
    if |s| > 0 && IsSpace(s[|s| - 1]) then
      var r := RStrip(s[..|s| - 1]);
      assert s[|r|..] == s[..|s| - 1][|r|..] + [s[|s| - 1]];
      AllSpaceConcat(s[..|s| - 1][|r|..], [s[|s| - 1]]);
      r
    else s
  }

  /** `str.strip()`. */
  function Strip(s: string): (r: string)
    ensures |r| <= |s|
    ensures |r| > 0 ==> !IsSpace(r[0]) && !IsSpace(r[|r| - 1])
  {
    RStrip(LStrip(s))
  }

  /** Stripping a string whose ends are not whitespace changes nothing. */
  lemma StripKeepsClean(s: string)
    requires |s| > 0 && !IsSpace(s[0]) && !IsSpace(s[|s| - 1])
    ensures Strip(s) == s
  {
    assert LStrip(s) == s;
  }

  /** The stripped text is a slice of the original. */
  lemma StripIsMiddle(s: string) returns (i: nat)
    ensures i + |Strip(s)| <= |s|
    ensures Strip(s) == s[i..i + |Strip(s)|]
  {
    var l := LStrip(s);
    i := |s| - |l|;
    var r := RStrip(l);
    MiddleOfSuffix(s, i, l, r);
    assert Strip(s) == r;
  }

  /** Stripping a stripped text padded with blanks gives it back. */
  lemma StripPadded(s: string)
    requires Strip(s) == s
    ensures Strip(s + " ") == s && Strip(" " + s + " ") == s
  {
    var t := s + " ";
    var u := " " + s + " ";
    assert u[1..] == t && IsSpace(' ');
    if |s| == 0 {
      assert t == " " && t[1..] == "" && t[..0] == "";
      assert LStrip(t) == "";
    } else {
      assert t[0] == s[0] && !IsSpace(s[0]);
      assert LStrip(t) == t;
      assert t[..|t| - 1] == s;
      assert RStrip(s) == s by {
        assert !IsSpace(s[|s| - 1]);
      }
      assert RStrip(t) == s;
    }
  }

  /** Leading whitespace makes no difference to `lstrip`. */
  lemma {:induction false} LStripSpaces(p: string, t: string)
    requires AllSpace(p)
    ensures LStrip(p + t) == LStrip(t)
  {
    if |p| > 0 {
      assert (p + t)[0] == p[0] && (p + t)[1..] == p[1..] + t;
      LStripSpaces(p[1..], t);
    } else {
      assert p + t == t;
    }
  }

  /** Trailing whitespace makes no difference to `rstrip`. */
  lemma {:induction false} RStripSpaces(t: string, q: string)
    requires AllSpace(q)
    ensures RStrip(t + q) == RStrip(t)
    decreases |q|
  {
    if |q| > 0 {
      var n := |q| - 1;
      AllSpaceAt(q, n);
      assert AllSpace(q[..n]) by {
        AllSpacePrefix(q, n);
      }
      assert (t + q)[..|t + q| - 1] == t + q[..n];
      RStripSpaces(t, q[..n]);
    } else {
      assert t + q == t;
    }
  }

  lemma {:induction false} AllSpacePrefix(s: string, n: nat)
    requires AllSpace(s) && n <= |s|
    ensures AllSpace(s[..n])
  {
    if n > 0 {
      assert s[..n][1..] == s[1..][..n - 1];
      AllSpacePrefix(s[1..], n - 1);
    }
  }

  /** A whitespace-only text holds no character that is not whitespace. */
  lemma NotInSpaces(p: string, c: char)
    requires AllSpace(p) && !IsSpace(c)
    ensures c !in p
  {
    forall i | 0 <= i < |p| ensures p[i] != c {
      AllSpaceAt(p, i);
    }
  }

  /** Stripping a stripped text surrounded by any whitespace gives it back. */
  lemma StripPads(p: string, s: string, q: string)
    requires AllSpace(p) && AllSpace(q) && Strip(s) == s
    ensures Strip(p + s + q) == s
  {
    AppendAssoc(p, s, q);
    LStripSpaces(p, s + q);
    if |s| == 0 {
      assert s + q == q;
      LStripSpaces(q, "");
      assert q + "" == q;
    } else {
      assert !IsSpace(s[0]) && !IsSpace(s[|s| - 1]) by {
        assert Strip(s)[0] == s[0] && Strip(s)[|s| - 1] == s[|s| - 1];
      }
      StripTrailing(s, q);
    }
  }

  /** Stripping a text with non-whitespace ends, followed by whitespace,
      gives it back. */
  lemma StripTrailing(s: string, q: string)
    requires AllSpace(q) && |s| > 0 && !IsSpace(s[0]) && !IsSpace(s[|s| - 1])
    ensures Strip(s + q) == s
  {
    assert (s + q)[0] == s[0];
    LStripClean(s + q);
    RStripSpaces(s, q);
    RStripClean(s);
  }

  lemma LStripClean(s: string)
    requires |s| > 0 && !IsSpace(s[0])
    ensures LStrip(s) == s
  {
  }

  lemma RStripClean(s: string)
    requires |s| > 0 && !IsSpace(s[|s| - 1])
    ensures RStrip(s) == s
  {
  }

  /** A prefix of a suffix is a slice. */
  lemma MiddleOfSuffix(s: string, i: nat, l: string, r: string)
    requires i <= |s| && l == s[i..] && |r| <= |l| && r == l[..|r|]
    ensures i + |r| <= |s| && r == s[i..i + |r|]
  {
  }

  lemma SpaceExamples()
    ensures IsSpace(' ') && IsSpace('\t') && IsSpace('\n')
    ensures !IsSpace('s') && !IsSpace('c') && !IsSpace('y') && !IsSpace('m')
  {
  }

  lemma StripIdempotent(s: string)
    ensures Strip(Strip(s)) == Strip(s)
  {
    if |Strip(s)| > 0 {
      StripKeepsClean(Strip(s));
    }
  }

  /** Number of occurrences of `c` in `s`. */
  function Count(s: string, c: char): nat {
    if |s| == 0 then 0 else (if s[0] == c then 1 else 0) + Count(s[1..], c)
  }

  /** Index of the first occurrence of `c` in `s`. */
  function IndexOf(s: string, c: char): (i: nat)
    requires c in s
    ensures i < |s| && s[i] == c && c !in s[..i]
  {
    if s[0] == c then 0 else 1 + IndexOf(s[1..], c)
  }

  /** Index of the last occurrence of `c` in `s`. */
  function LastIndexOf(s: string, c: char): (i: nat)
    requires c in s
    ensures i < |s| && s[i] == c && c !in s[i + 1..]
  {
    if s[|s| - 1] == c then |s| - 1 else LastIndexOf(s[..|s| - 1], c)
  }

  /** `s.split(sep)` for a one-character separator: every piece between two
      separators, empty pieces included. */
  function Split(s: string, sep: char): (r: seq<string>)
    ensures |r| == Count(s, sep) + 1
    ensures forall k :: 0 <= k < |r| ==> sep !in r[k]
    decreases |s|
  {
    if sep !in s then
      CountAbsent(s, sep);
      [s]
    else
      var i := IndexOf(s, sep);
      CountSplit(s, sep, i);
      [s[..i]] + Split(s[i + 1..], sep)
  }

  lemma CountAbsent(s: string, c: char)
    requires c !in s
    ensures Count(s, c) == 0
  {
    if |s| > 0 {
      assert c !in s[1..];
      CountAbsent(s[1..], c);
    }
  }

  lemma CountAppend(a: string, b: string, c: char)
    ensures Count(a + b, c) == Count(a, c) + Count(b, c)
  {
    if |a| > 0 {
      assert (a + b)[1..] == a[1..] + b;
      CountAppend(a[1..], b, c);
    } else {
      assert a + b == b;
    }
  }

  lemma CountSplit(s: string, c: char, i: nat)
    requires i < |s| && s[i] == c && c !in s[..i]
    ensures Count(s, c) == Count(s[i + 1..], c) + 1
  {
    assert s == s[..i] + ([s[i]] + s[i + 1..]);
    CountAppend(s[..i], [s[i]] + s[i + 1..], c);
    CountAppend([s[i]], s[i + 1..], c);
    CountAbsent(s[..i], c);
  }

  /** `sep.join(xs)`. */
  function Join(sep: string, xs: seq<string>): string {
    if |xs| == 0 then ""
    else if |xs| == 1 then xs[0]
    else xs[0] + sep + Join(sep, xs[1..])
  }

  /** Joining one more piece adds the separator and the piece. */
  lemma {:induction false} JoinAppend(sep: string, xs: seq<string>, x: string)
    requires |xs| > 0
    ensures Join(sep, xs + [x]) == Join(sep, xs) + sep + x
  {
    if |xs| == 1 {
      assert (xs + [x])[1..] == [x];
    } else {
      assert (xs + [x])[1..] == xs[1..] + [x];
      JoinAppend(sep, xs[1..], x);
    }
  }

  /** A join ends the way its last piece ends. */
  lemma {:induction false} JoinLast(sep: string, xs: seq<string>)
    requires |xs| > 0 && |xs[|xs| - 1]| > 0
    ensures var j := Join(sep, xs); var l := xs[|xs| - 1];
      |j| >= |l| && j[|j| - 1] == l[|l| - 1]
  {
    if |xs| > 1 {
      JoinLast(sep, xs[1..]);
    }
  }

  /** A concatenation ends the way its non-empty second part ends. */
  lemma LastOfAppend(a: string, b: string)
    requires |b| > 0
    ensures |a + b| > 0 && (a + b)[|a + b| - 1] == b[|b| - 1]
  {
  }

  lemma {:induction false} JoinSplit(s: string, sep: char)
    ensures Join([sep], Split(s, sep)) == s
    decreases |s|
  {
    if sep in s {
      var i := IndexOf(s, sep);
      JoinSplit(s[i + 1..], sep);
      assert s == s[..i] + [sep] + s[i + 1..];
    }
  }

  /** Splitting what `Join` glued back together gives the pieces again, as
      long as no piece holds the separator. */
  lemma {:induction false} SplitJoin(xs: seq<string>, sep: char)
    requires |xs| > 0
    requires forall k :: 0 <= k < |xs| ==> sep !in xs[k]
    ensures Split(Join([sep], xs), sep) == xs
  {
    if |xs| > 1 {
      SplitJoin(xs[1..], sep);
      JoinFirst(xs, sep);
    }
  }

  /** The first separator of a join is the one after the first piece. */
  lemma JoinFirst(xs: seq<string>, sep: char)
    requires |xs| > 1 && sep !in xs[0]
    ensures var s := Join([sep], xs); var i := |xs[0]|;
      sep in s && IndexOf(s, sep) == i && s[..i] == xs[0] && s[i + 1..] == Join([sep], xs[1..])
  {
    var s := Join([sep], xs);
    var i := |xs[0]|;
    assert s == xs[0] + [sep] + Join([sep], xs[1..]);
    assert s[i] == sep && s[..i] == xs[0];
    IndexOfUnique(s, sep, i);
  }

  /** An occurrence with none before it is the first. */
  lemma IndexOfUnique(s: string, c: char, i: nat)
    requires i < |s| && s[i] == c && c !in s[..i]
    ensures c in s && IndexOf(s, c) == i
  {
    var j := IndexOf(s, c);
    assert forall k :: 0 <= k < i ==> s[..i][k] == s[k];
    assert forall k :: 0 <= k < j ==> s[..j][k] == s[k];
  }

  /** `s.replace(a, b)` for single characters. */
  function Replace(s: string, a: char, b: char): (r: string)
    ensures |r| == |s|
    ensures forall k :: 0 <= k < |s| ==> r[k] == (if s[k] == a then b else s[k])
  {
    if |s| == 0 then "" else [if s[0] == a then b else s[0]] + Replace(s[1..], a, b)
  }

  /** `s.replace(a, "")` for a single character. */
  function Remove(s: string, a: char): (r: string)
    ensures a !in r
    ensures forall c :: c != a ==> (c in r <==> c in s)
  {
    if |s| == 0 then "" else (if s[0] == a then "" else [s[0]]) + Remove(s[1..], a)
  }

  predicate StartsWith(s: string, p: string) {
    |p| <= |s| && s[..|p|] == p
  }

  predicate EndsWith(s: string, p: string) {
    |p| <= |s| && s[|s| - |p|..] == p
  }

  /** Python's `sub in s` for strings. */
  predicate IsInfix(sub: string, s: string)
    decreases |s|
  {
    StartsWith(s, sub) || (|s| > 0 && IsInfix(sub, s[1..]))
  }

  lemma {:induction false} InfixAt(sub: string, s: string, i: nat)
    requires i + |sub| <= |s| && s[i..i + |sub|] == sub
    ensures IsInfix(sub, s)
    decreases i
  {
    if i > 0 {
      assert s[1..][i - 1..i - 1 + |sub|] == s[i..i + |sub|];
      InfixAt(sub, s[1..], i - 1);
    }
  }

  /** A text holding a character the other lacks is not inside it. */
  lemma NotInfixByChar(sub: string, s: string, c: char)
    requires c in sub && c !in s
    ensures !IsInfix(sub, s)
  {
    if IsInfix(sub, s) {
      InfixChars(sub, s, c);
    }
  }

  lemma InfixSelf(s: string)
    ensures IsInfix(s, s)
  {
    assert s[..|s|] == s;
  }

  /** The middle part of a concatenation occurs in it. */
  lemma InfixMiddle(a: string, m: string, b: string)
    ensures IsInfix(m, a + m + b)
  {
    assert (a + m + b)[|a|..|a| + |m|] == m;
    InfixAt(m, a + m + b, |a|);
  }

  /** Every character of an infix occurs in the whole string. */
  lemma {:induction false} InfixChars(sub: string, s: string, c: char)
    requires IsInfix(sub, s) && c in sub
    ensures c in s
    decreases |s|
  {
    if StartsWith(s, sub) {
      assert s[..|sub|] == sub;
      var k :| 0 <= k < |sub| && sub[k] == c;
      assert s[k] == c;
    } else {
      InfixChars(sub, s[1..], c);
      assert s == [s[0]] + s[1..];
    }
  }

  /** Python's `<` on strings: code-point lexicographic order. */
  predicate LexLess(a: string, b: string) {
    if |a| == 0 then |b| > 0
    else if |b| == 0 then false
    else if a[0] != b[0] then a[0] < b[0]
    else LexLess(a[1..], b[1..])
  }

  predicate LexLe(a: string, b: string) {
    a == b || LexLess(a, b)
  }

  lemma {:induction false} LexLessIrreflexive(a: string)
    ensures !LexLess(a, a)
  {
    if |a| > 0 {
      LexLessIrreflexive(a[1..]);
    }
  }

  lemma {:induction false} LexLessTotal(a: string, b: string)
    ensures LexLess(a, b) || a == b || LexLess(b, a)
  {
    if |a| > 0 && |b| > 0 && a[0] == b[0] {
      LexLessTotal(a[1..], b[1..]);
      if a[1..] == b[1..] {
        assert a == [a[0]] + a[1..] && b == [b[0]] + b[1..];
      }
    }
  }

  lemma {:induction false} LexLessTransitive(a: string, b: string, c: string)
    requires LexLess(a, b) && LexLess(b, c)
    ensures LexLess(a, c)
  {
    if |a| > 0 && a[0] == b[0] && b[0] == c[0] {
      LexLessTransitive(a[1..], b[1..], c[1..]);
    }
  }

  lemma LexLeTransitive(a: string, b: string, c: string)
    requires LexLe(a, b) && LexLe(b, c)
    ensures LexLe(a, c)
  {
    if a != b && b != c {
      LexLessTransitive(a, b, c);
    }
  }

  lemma LexLeTotal(a: string, b: string)
    ensures LexLe(a, b) || LexLe(b, a)
  {
    LexLessTotal(a, b);
  }

  /** `s.rsplit(".", 1)[0]`: everything before the last dot, or the whole
      string when it has none. */
  function BeforeLastDot(s: string): (r: string)
    ensures |r| <= |s| && r == s[..|r|]
    ensures '.' in s ==> |r| < |s| && s[|r|] == '.' && '.' !in s[|r| + 1..]
    ensures '.' !in s ==> r == s
  {
    if '.' in s then s[..LastIndexOf(s, '.')] else s
  }

  function DigitChar(d: nat): (c: char)
    requires d < 10
    ensures '0' <= c <= '9'
  {
    ['0', '1', '2', '3', '4', '5', '6', '7', '8', '9'][d]
  }

  function NatToDecimal(n: nat): (r: string)
    ensures |r| > 0
    ensures forall k :: 0 <= k < |r| ==> '0' <= r[k] <= '9'
  {
    if n < 10 then [DigitChar(n)] else NatToDecimal(n / 10) + [DigitChar(n % 10)]
  }

  /** `str(i)` for a Python `int`. */
  function IntToDecimal(i: int): (r: string)
    ensures |r| > 0
  {
    if i < 0 then "-" + NatToDecimal(-i) else NatToDecimal(i)
  }

  /** The scalar values that flow into queries and payloads. A Python `float`
      is carried as the text `str()` gives for it: floating-point formatting
      is not part of this model. */
  datatype Scalar = Str(s: string) | Int(i: int) | Bool(b: bool) | Float(repr: string)

  /** Python's `isinstance(x, (float, int))`; `bool` is a subclass of `int`. */
  predicate IsNumber(x: Scalar) {
    x.Int? || x.Bool? || x.Float?
  }

  /** `str(x)`, which is also what an f-string substitutes. */
  function Show(x: Scalar): string {
    match x
    case Str(s) => s
    case Int(i) => IntToDecimal(i)
    case Bool(b) => if b then "True" else "False"
    case Float(t) => t
  }

  /** `repr(x)`; a string's quoting is written without escapes, which is
      exact for text with no quote, backslash or unprintable character. */
  function Repr(x: Scalar): string {
    if x.Str? then "'" + x.s + "'" else Show(x)
  }

  /** `str(xs)` for a list: its elements' `repr`, comma-separated in brackets. */
  function ListRepr(xs: seq<Scalar>): string {
    "[" + Join(", ", seq(|xs|, k requires 0 <= k < |xs| => Repr(xs[k]))) + "]"
  }

  /** `str(o)` for a value that may be `None`. */
  function ShowOpt(o: Option<Scalar>): string {
    match o
    case None => "None"
    case Some(x) => Show(x)
  }

  // ---------------------------------------------------------------------------
  // Sequences without repetition

  /** No element occurs twice. */
  predicate NoDup<T(==)>(s: seq<T>) {
    |s| == 0 || (s[0] !in s[1..] && NoDup(s[1..]))
  }

  /** `NoDup` counted: every element occurs exactly once. */
  lemma {:induction false} NoDupCounts<T>(s: seq<T>)
    ensures NoDup(s) <==> forall x | x in s :: multiset(s)[x] == 1
  {
    if |s| > 0 {
      NoDupCounts(s[1..]);
      assert s == [s[0]] + s[1..];
      assert multiset(s) == multiset{s[0]} + multiset(s[1..]);
      if !NoDup(s) {
        if s[0] in s[1..] {
          assert multiset(s)[s[0]] >= 2;
        } else {
          var y :| y in s[1..] && multiset(s[1..])[y] != 1;
          assert multiset(s)[y] != 1;
        }
      }
    }
  }

  /** A fresh element appended keeps a sequence free of repetition. */
  lemma {:induction false} AppendFreshNoDup<T>(xs: seq<T>, x: T)
    requires NoDup(xs) && x !in xs
    ensures NoDup(xs + [x])
  {
    if |xs| > 0 {
      AppendFreshNoDup(xs[1..], x);
      assert (xs + [x])[1..] == xs[1..] + [x];
    } else {
      assert xs + [x] == [x];
    }
  }

  /** Two repetition-free sequences with no common element concatenate to
      one. */
  lemma {:induction false} NoDupConcat<T>(a: seq<T>, b: seq<T>)
    requires NoDup(a) && NoDup(b) && forall x :: x in a ==> x !in b
    ensures NoDup(a + b)
  {
    if |a| > 0 {
      NoDupConcat(a[1..], b);
      var ab := a + b;
      assert ab[0] == a[0] && ab[1..] == a[1..] + b;
      assert a[0] !in a[1..] && a[0] !in b;
      assert ab[0] !in ab[1..];
    } else {
      assert a + b == b;
    }
  }

  lemma AppendAssoc<T>(a: seq<T>, b: seq<T>, c: seq<T>)
    ensures a + b + c == a + (b + c)
  {
  }

  /** The two parts of a repetition-free concatenation share nothing. */
  lemma {:induction false} NoDupParts<T>(a: seq<T>, b: seq<T>)
    requires NoDup(a + b)
    ensures forall x :: x in a ==> x !in b
  {
    if |a| > 0 {
      assert (a + b)[0] == a[0] && (a + b)[1..] == a[1..] + b;
      NoDupParts(a[1..], b);
      assert forall x :: x in a ==> x == a[0] || x in a[1..];
    }
  }

  /** Distinct positions of a repetition-free sequence hold distinct
      elements. */
  lemma {:induction false} NoDupDistinct<T>(s: seq<T>, a: nat, b: nat)
    requires NoDup(s) && a < b < |s|
    ensures s[a] != s[b]
  {
    if a == 0 {
      assert s[b] == s[1..][b - 1];
    } else {
      NoDupDistinct(s[1..], a - 1, b - 1);
    }
  }
}
