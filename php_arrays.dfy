/**
 * PHP values and PHP's ordered arrays, as far as the plugin relies on them.
 *
 * A PHP array with string keys is an ordered dictionary: assigning to an
 * existing key overwrites the value in place (the key keeps its position),
 * assigning to a new key appends it. It is modelled as a sequence of
 * key/value pairs; `Put` is `$a[$k] = $v` and `Lookup` is `$a[$k]`.
 */
module PhpArrays {

  datatype Option<T> = None | Some(value: T)

  /** The PHP values the plugin handles: option values, form input, callbacks and nested arrays. */
  datatype PhpValue =
    | Bool(b: bool)
    | Int(i: int)
    | Str(s: string)
    | Arr(entries: seq<(string, PhpValue)>)

  type PhpArray = seq<(string, PhpValue)>

  /** `array_keys($a)`. */
  function Keys(a: PhpArray): (ks: seq<string>)
    ensures |ks| == |a|
    ensures forall i :: 0 <= i < |a| ==> ks[i] == a[i].0
  {
    if a == [] then [] else [a[0].0] + Keys(a[1..])
  }

  /** A PHP array never holds the same key twice. */
  predicate DistinctKeys(a: PhpArray) {
    forall i, j :: 0 <= i < j < |a| ==> a[i].0 != a[j].0
  }

  /** `$a[$k]`, None when the key is not set. */
  function Lookup(a: PhpArray, k: string): (r: Option<PhpValue>)
    ensures r.Some? <==> k in Keys(a)
    ensures r.Some? ==> (k, r.value) in a
  {
    if a == [] then None
    else if a[0].0 == k then Some(a[0].1)
    else Lookup(a[1..], k)
  }

  /** `$a[$k] = $v`: overwrite in place, or append a new key at the end. */
  function Put(a: PhpArray, k: string, v: PhpValue): (r: PhpArray)
    ensures Lookup(r, k) == Some(v)
    ensures forall k' :: k' != k ==> Lookup(r, k') == Lookup(a, k')
    ensures Keys(r) == if k in Keys(a) then Keys(a) else Keys(a) + [k]
  {
    if a == [] then [(k, v)]
    else if a[0].0 == k then
      var r := [(k, v)] + a[1..];
      Cons((k, v), a[1..]);
      r
    else
      var rest := Put(a[1..], k, v);
      PutBehind(a, k, v, rest);
      [a[0]] + rest
  }

  /** The recursive case of `Put`: the key is set behind the first entry. */
  lemma PutBehind(a: PhpArray, k: string, v: PhpValue, rest: PhpArray)
    requires a != [] && a[0].0 != k
    requires Lookup(rest, k) == Some(v)
    requires forall k' :: k' != k ==> Lookup(rest, k') == Lookup(a[1..], k')
    requires Keys(rest) == if k in Keys(a[1..]) then Keys(a[1..]) else Keys(a[1..]) + [k]
    ensures Lookup([a[0]] + rest, k) == Some(v)
    ensures forall k' :: k' != k ==> Lookup([a[0]] + rest, k') == Lookup(a, k')
    ensures Keys([a[0]] + rest) == if k in Keys(a) then Keys(a) else Keys(a) + [k]
  {
    Cons(a[0], rest);
    KeysBehind(a, k, rest);
  }

  lemma KeysBehind(a: PhpArray, k: string, rest: PhpArray)
    requires a != [] && a[0].0 != k
    requires Keys(rest) == if k in Keys(a[1..]) then Keys(a[1..]) else Keys(a[1..]) + [k]
    ensures Keys([a[0]] + rest) == if k in Keys(a) then Keys(a) else Keys(a) + [k]
  {
    Cons(a[0], rest);
    assert Keys(a) == [a[0].0] + Keys(a[1..]);
    if k !in Keys(a[1..]) {
      Assoc([a[0].0], Keys(a[1..]), [k]);
    }
  }

  lemma Assoc<T>(x: seq<T>, y: seq<T>, z: seq<T>)
    ensures x + (y + z) == (x + y) + z
  {
  }

  /** Keys and lookups of an array given by its first entry and the rest. */
  lemma Cons(e: (string, PhpValue), a: PhpArray)
    ensures Keys([e] + a) == [e.0] + Keys(a)
    ensures forall k :: Lookup([e] + a, k) == if e.0 == k then Some(e.1) else Lookup(a, k)
  {
    assert ([e] + a)[1..] == a;
  }

  /** Keys stay distinct under `Put`. */
  lemma PutKeepsKeysDistinct(a: PhpArray, k: string, v: PhpValue)
    requires DistinctKeys(a)
    ensures DistinctKeys(Put(a, k, v))
  {
    var r := Put(a, k, v);
    var ks := Keys(r);
    assert forall i :: 0 <= i < |r| ==> r[i].0 == ks[i];
    if k !in Keys(a) {
      forall i, j | 0 <= i < j < |r| ensures r[i].0 != r[j].0 {
        if j == |a| {
          assert r[i].0 == Keys(a)[i];
        } else {
          assert r[i].0 == Keys(a)[i] && r[j].0 == Keys(a)[j];
        }
      }
    } else {
      forall i, j | 0 <= i < j < |r| ensures r[i].0 != r[j].0 {
        assert r[i].0 == Keys(a)[i] && r[j].0 == Keys(a)[j];
      }
    }
  }

  /**
   * `array_merge($a, $b)` for string keys, which is also the effect of
   * assigning every entry of `$b` into `$a` in order: `$b` wins on shared keys.
   */
  function Merge(a: PhpArray, b: PhpArray): (r: PhpArray)
    ensures forall k :: k in Keys(r) <==> k in Keys(a) || k in Keys(b)
    ensures forall k :: k !in Keys(b) ==> Lookup(r, k) == Lookup(a, k)
    ensures DistinctKeys(a) ==> DistinctKeys(r)
    decreases |b|
  {
    if b == [] then a
    else
      var last := b[|b| - 1];
      var m := Merge(a, b[..|b| - 1]);
      var r := Put(m, last.0, last.1);
      KeysInit(b);
      if DistinctKeys(a) then PutKeepsKeysDistinct(m, last.0, last.1); r else r
  }

  /** The keys of an array are those of all but its last entry, then the last key. */
  lemma KeysInit(b: PhpArray)
    requires b != []
    ensures Keys(b) == Keys(b[..|b| - 1]) + [b[|b| - 1].0]
  {
  }

  lemma {:induction false} MergeLookupLast(a: PhpArray, b: PhpArray, k: string)
    requires DistinctKeys(b)
    requires k in Keys(b)
    ensures Lookup(Merge(a, b), k) == Lookup(b, k)
    decreases |b|
  {
    var init := b[..|b| - 1];
    var last := b[|b| - 1];
    KeysInit(b);
    InitLast(b);
    LookupAppend(init, last, k);
    DistinctInitLast(b);
    if last.0 != k {
      MergeLookupLast(a, init, k);
    }
  }

  lemma LookupAppend(a: PhpArray, e: (string, PhpValue), k: string)
    ensures Lookup(a + [e], k) == if k in Keys(a) then Lookup(a, k) else if e.0 == k then Some(e.1) else None
  {
    if a != [] {
      assert (a + [e])[1..] == a[1..] + [e];
      LookupAppend(a[1..], e, k);
    }
  }

  /** PHP's truthiness, as in `if ($x)`; `empty($x)` is its negation. */
  predicate Truthy(v: PhpValue) {
    match v
    case Bool(b) => b
    case Int(i) => i != 0
    case Str(s) => s != "" && s != "0"
    case Arr(entries) => entries != []
  }

  /** `1 == $v`, for the values a checkbox form or the stored option can hold. */
  predicate LooselyEqualsOne(v: PhpValue) {
    match v
    case Bool(b) => b
    case Int(i) => i == 1
    case Str(s) => s == "1"
    case Arr(_) => false
  }

  /**
   * `b` lists some of the elements of `a`, in the order `a` has them.
   */
  ghost predicate IsSubsequence<T>(b: seq<T>, a: seq<T>)
    decreases |a|
  {
    b == [] || (a != [] && ((a[0] == b[0] && IsSubsequence(b[1..], a[1..])) || IsSubsequence(b, a[1..])))
  }

  /** `Put` of a key not yet set appends it. */
  lemma {:induction false} AppendNewKey(a: PhpArray, k: string, v: PhpValue)
    requires k !in Keys(a)
    ensures Put(a, k, v) == a + [(k, v)]
  {
    if a != [] {
      var rest := a[1..];
      assert a == [a[0]] + rest;
      Cons(a[0], rest);
      AppendNewKey(rest, k, v);
      assert Put(a, k, v) == [a[0]] + Put(rest, k, v);
      Assoc([a[0]], rest, [(k, v)]);
    }
  }

  /** Dropping the last entry keeps keys distinct, and the last key is not among the others. */
  lemma DistinctInitLast(b: PhpArray)
    requires DistinctKeys(b) && b != []
    ensures DistinctKeys(b[..|b| - 1]) && b[|b| - 1].0 !in Keys(b[..|b| - 1])
  {
    var init := b[..|b| - 1];
    forall i, j | 0 <= i < j < |init| ensures init[i].0 != init[j].0 {
      assert init[i] == b[i] && init[j] == b[j];
    }
    forall i | 0 <= i < |init| ensures Keys(init)[i] != b[|b| - 1].0 {
      assert b[i].0 != b[|b| - 1].0;
    }
  }

  lemma InitLast<T>(s: seq<T>)
    requires s != []
    ensures s[..|s| - 1] + [s[|s| - 1]] == s
  {
  }

  /** Merging an array with distinct keys into an empty one gives that array back. */
  lemma {:induction false} MergeIntoEmpty(b: PhpArray)
    requires DistinctKeys(b)
    ensures Merge([], b) == b
    decreases |b|
  {
    if b != [] {
      var init := b[..|b| - 1];
      var last := b[|b| - 1];
      DistinctInitLast(b);
      MergeIntoEmpty(init);
      assert Merge([], b) == Put(Merge([], init), last.0, last.1);
      AppendNewKey(init, last.0, last.1);
      assert (last.0, last.1) == last;
      InitLast(b);
    }
  }
}
