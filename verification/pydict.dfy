/**
 Python dictionaries with string keys, as insertion-ordered association
 lists: assigning to a present key keeps its position, a new key goes last,
 and `{**a, **b}` starts from `a` and assigns every item of `b` in order.
 */
module PyDict {
  import opened Wrappers
  import opened PyText

  type Dict<V> = seq<(string, V)>

  /** The keys, in insertion order. */
  function Keys<V>(d: Dict<V>): seq<string> {
    if |d| == 0 then [] else [d[0].0] + Keys(d[1..])
  }

  /** The keys, position by position. */
  lemma {:induction false} KeysIndex<V>(d: Dict<V>)
    ensures |Keys(d)| == |d| && forall i :: 0 <= i < |d| ==> Keys(d)[i] == d[i].0
  {
    if |d| > 0 {
      KeysIndex(d[1..]);
    }
  }

  /** The keys of a concatenation. */
  lemma {:induction false} KeysAppend<V>(a: Dict<V>, b: Dict<V>)
    ensures Keys(a + b) == Keys(a) + Keys(b)
  {
    if |a| > 0 {
      assert (a + b)[1..] == a[1..] + b;
      KeysAppend(a[1..], b);
    } else {
      assert a + b == b;
    }
  }

  /** A dictionary never holds a key twice. */
  predicate ValidDict<V>(d: Dict<V>) {
    NoDup(Keys(d))
  }

  /** `d.get(k)`. */
  function Get<V>(d: Dict<V>, k: string): (r: Option<V>)
    ensures r.Some? <==> k in Keys(d)
  {
    if |d| == 0 then None
    else if d[0].0 == k then Some(d[0].1)
    else Get(d[1..], k)
  }

  /** `d[k] = v`. */
  function Put<V>(d: Dict<V>, k: string, v: V): (r: Dict<V>)
    ensures Keys(r) == if k in Keys(d) then Keys(d) else Keys(d) + [k]
    ensures forall k' :: Get(r, k') == if k' == k then Some(v) else Get(d, k')
  {
    if |d| == 0 then [(k, v)]
    else if d[0].0 == k then [(k, v)] + d[1..]
    else [d[0]] + Put(d[1..], k, v)
  }

  /** `del d[k]` for a present key; nothing for an absent one. */
  function Del<V>(d: Dict<V>, k: string): (r: Dict<V>)
    ensures Keys(r) == Without(Keys(d), k)
    ensures forall k' :: Get(r, k') == if k' == k then None else Get(d, k')
  {
    if |d| == 0 then []
    else if d[0].0 == k then Del(d[1..], k)
    else [d[0]] + Del(d[1..], k)
  }

  /** The elements of `xs` other than `x`, in order. */
  function Without(xs: seq<string>, x: string): (r: seq<string>)
    ensures x !in r
    ensures forall y :: y in r <==> y in xs && y != x
  {
    if |xs| == 0 then []
    else (if xs[0] == x then [] else [xs[0]]) + Without(xs[1..], x)
  }

  /** The elements of `xs` not in `seen`, in order. */
  function Fresh(xs: seq<string>, seen: seq<string>): (r: seq<string>)
    ensures forall y :: y in r <==> y in xs && y !in seen
  {
    if |xs| == 0 then []
    else (if xs[0] in seen then [] else [xs[0]]) + Fresh(xs[1..], seen)
  }

  /** `{**a, **b}`. */
  function Merge<V>(a: Dict<V>, b: Dict<V>): Dict<V>
    decreases |b|
  {
    if |b| == 0 then a else Merge(Put(a, b[0].0, b[0].1), b[1..])
  }

  /** A value of `b` wins over the value of `a` under the same key. */
  lemma {:induction false} MergeGet<V>(a: Dict<V>, b: Dict<V>, k: string)
    requires ValidDict(b)
    ensures Get(Merge(a, b), k) == if k in Keys(b) then Get(b, k) else Get(a, k)
    decreases |b|
  {
    if |b| > 0 {
      MergeGet(Put(a, b[0].0, b[0].1), b[1..], k);
    }
  }

  /** The keys of `a` keep their places; the new keys of `b` follow in
      their order in `b`. */
  lemma {:induction false} MergeKeys<V>(a: Dict<V>, b: Dict<V>)
    requires ValidDict(b)
    ensures Keys(Merge(a, b)) == Keys(a) + Fresh(Keys(b), Keys(a))
    decreases |b|
  {
    if |b| > 0 {
      var a' := Put(a, b[0].0, b[0].1);
      MergeKeys(a', b[1..]);
      FreshStep(Keys(b[1..]), Keys(a), b[0].0);
    }
  }

  /** One key moved from the candidates to the seen keys. */
  lemma {:induction false} FreshStep(xs: seq<string>, seen: seq<string>, x: string)
    requires x !in xs
    ensures (if x in seen then seen else seen + [x]) + Fresh(xs, if x in seen then seen else seen + [x])
            == seen + Fresh([x] + xs, seen)
  {
    assert ([x] + xs)[1..] == xs;
    FreshIgnoresAbsent(xs, seen, x);
  }

  /** Adding a key that does not occur among the candidates changes nothing. */
  lemma {:induction false} FreshIgnoresAbsent(xs: seq<string>, seen: seq<string>, x: string)
    requires x !in xs
    ensures Fresh(xs, seen + [x]) == Fresh(xs, seen)
  {
    if |xs| > 0 {
      FreshIgnoresAbsent(xs[1..], seen, x);
    }
  }

  /** Putting and deleting keep a dictionary free of repeated keys. */
  lemma PutDelValid<V>(d: Dict<V>, k: string, v: V)
    requires ValidDict(d)
    ensures ValidDict(Put(d, k, v)) && ValidDict(Del(d, k))
  {
    WithoutNoDup(Keys(d), k);
    if k !in Keys(d) {
      AppendFreshNoDup(Keys(d), k);
    }
  }

  /** Assigning a new key appends it. */
  lemma {:induction false} PutFresh<V>(d: Dict<V>, k: string, v: V)
    requires k !in Keys(d)
    ensures Put(d, k, v) == d + [(k, v)]
  {
    if |d| > 0 {
      PutFresh(d[1..], k, v);
      assert d + [(k, v)] == [d[0]] + (d[1..] + [(k, v)]);
    }
  }

  lemma {:induction false} WithoutNoDup(xs: seq<string>, x: string)
    requires NoDup(xs)
    ensures NoDup(Without(xs, x))
  {
    if |xs| > 0 {
      WithoutNoDup(xs[1..], x);
      var r := Without(xs[1..], x);
      if xs[0] != x {
        assert Without(xs, x) == [xs[0]] + r;
        assert xs[0] !in xs[1..];
        assert xs[0] !in r;
        assert ([xs[0]] + r)[1..] == r;
      } else {
        assert Without(xs, x) == r;
      }
    }
  }

  /** Merging keeps a dictionary free of repeated keys. */
  lemma {:induction false} MergeValid<V>(a: Dict<V>, b: Dict<V>)
    requires ValidDict(a)
    ensures ValidDict(Merge(a, b))
    decreases |b|
  {
    if |b| > 0 {
      PutDelValid(a, b[0].0, b[0].1);
      MergeValid(Put(a, b[0].0, b[0].1), b[1..]);
    }
  }

  /** Deleting an absent key changes nothing. */
  lemma {:induction false} DelAbsent<V>(d: Dict<V>, k: string)
    requires k !in Keys(d)
    ensures Del(d, k) == d
  {
    if |d| > 0 {
      assert k !in Keys(d[1..]);
      DelAbsent(d[1..], k);
    }
  }

  /** Deleting a key absent from the front part deletes in the rest. */
  lemma {:induction false} DelAfter<V>(a: Dict<V>, b: Dict<V>, k: string)
    requires k !in Keys(a)
    ensures Del(a + b, k) == a + Del(b, k)
  {
    if |a| > 0 {
      var d := a + b;
      assert d[0] == a[0] && d[1..] == a[1..] + b;
      assert Keys(a) == [a[0].0] + Keys(a[1..]);
      DelAfter(a[1..], b, k);
      assert Del(d, k) == [a[0]] + Del(a[1..] + b, k);
      ConsAppend(a, Del(b, k));
    } else {
      assert a + b == b;
    }
  }

  /** Deleting a key present once, between two parts without it, leaves the
      two parts. */
  lemma DelMiddle<V>(a: Dict<V>, entry: (string, V), b: Dict<V>)
    requires entry.0 !in Keys(a) && entry.0 !in Keys(b)
    ensures Del(a + [entry] + b, entry.0) == a + b
  {
    assert a + [entry] + b == a + ([entry] + b);
    DelAfter(a, [entry] + b, entry.0);
    assert ([entry] + b)[1..] == b;
    DelAbsent(b, entry.0);
  }

  lemma ConsAppend<T>(a: seq<T>, b: seq<T>)
    requires |a| > 0
    ensures a + b == [a[0]] + (a[1..] + b)
  {
    assert a == [a[0]] + a[1..];
  }
}
