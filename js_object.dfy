/**
 * Plain JavaScript objects as the scripts use them: a dictionary whose
 * keys are listed (by Object.keys, Object.entries, JSON.stringify) in the
 * order OrdinaryOwnPropertyKeys gives, section 10.1.11.1 of ECMA-262:
 * array-index keys first in ascending numeric order, then the other string
 * keys in the order they were first created.
 */
module JsObject {
  import Decimal

  /** 2^32 - 1: the array indices are the canonical numerals below it (section 6.1.7 of ECMA-262). */
  const ArrayIndexBound: nat := 0x1_0000_0000 - 1

  predicate IsArrayIndex(k: string) {
    Decimal.IsCanonical(k) && Decimal.Value(k) < ArrayIndexBound
  }

  /** Every array-index key comes before every later key, and the array-index keys ascend. */
  predicate Ordered(keys: seq<string>) {
    forall i, j :: 0 <= i < j < |keys| && IsArrayIndex(keys[j]) ==>
      IsArrayIndex(keys[i]) && Decimal.Value(keys[i]) < Decimal.Value(keys[j])
  }

  predicate Distinct(keys: seq<string>) {
    forall i, j :: 0 <= i < j < |keys| ==> keys[i] != keys[j]
  }

  /** An object: its own keys in enumeration order, and its property values. */
  datatype Object<V> = Object(keys: seq<string>, values: map<string, V>)

  predicate Valid<V>(o: Object<V>) {
    && Ordered(o.keys)
    && Distinct(o.keys)
    && (forall k :: k in o.keys ==> k in o.values)
    && (forall k :: k in o.values ==> k in o.keys)
  }

  /** `{}`. */
  function Empty<V>(): (o: Object<V>)
    ensures Valid(o) && o.keys == [] && o.values == map[]
  {
    Object([], map[])
  }

  /** Two array indices with the same numeric value are the same key. */
  lemma IndexValueInjective(a: string, b: string)
    requires IsArrayIndex(a) && IsArrayIndex(b) && Decimal.Value(a) == Decimal.Value(b)
    ensures a == b
  {
    Decimal.ToDecimalOfValue(a);
    Decimal.ToDecimalOfValue(b);
  }

  /** Where a newly created key `k` goes in the key list. */
  function InsertKey(keys: seq<string>, k: string): (r: seq<string>)
    ensures |r| == |keys| + 1
    ensures forall x :: x in r <==> x in keys || x == k
    ensures !IsArrayIndex(k) ==> r == keys + [k]
  {
    if !IsArrayIndex(k) || keys == [] then keys + [k]
    else if !IsArrayIndex(keys[0]) || Decimal.Value(k) < Decimal.Value(keys[0]) then [k] + keys
    else [keys[0]] + InsertKey(keys[1..], k)
  }

  /** Creating a key that is not there yet keeps the key list duplicate-free. */
  lemma {:induction false} InsertKeyDistinct(keys: seq<string>, k: string)
    requires Distinct(keys) && k !in keys
    ensures Distinct(InsertKey(keys, k))
    decreases |keys|
  {
    var r := InsertKey(keys, k);
    if IsArrayIndex(k) && keys != [] && IsArrayIndex(keys[0]) && Decimal.Value(k) >= Decimal.Value(keys[0]) {
      var rest := InsertKey(keys[1..], k);
      InsertKeyDistinct(keys[1..], k);
      assert r == [keys[0]] + rest;
      forall i, j | 0 <= i < j < |r| ensures r[i] != r[j] {
        if i == 0 {
          assert r[j] in rest;
          assert keys[0] !in keys[1..];
        } else {
          assert r[i] == rest[i - 1];
        }
      }
    }
  }

  /** An array index smaller than the first key goes in front, and the order holds. */
  lemma InsertKeyFrontOrdered(keys: seq<string>, k: string)
    requires Ordered(keys) && IsArrayIndex(k)
    requires keys == [] || !IsArrayIndex(keys[0]) || Decimal.Value(k) < Decimal.Value(keys[0])
    ensures Ordered([k] + keys)
  {
    var r := [k] + keys;
    forall i, j | 0 <= i < j < |r| && IsArrayIndex(r[j])
      ensures IsArrayIndex(r[i]) && Decimal.Value(r[i]) < Decimal.Value(r[j])
    {
      assert r[j] == keys[j - 1];
      if i > 0 {
        assert r[i] == keys[i - 1];
      } else if j - 1 > 0 {
        assert IsArrayIndex(keys[0]) && Decimal.Value(keys[0]) < Decimal.Value(keys[j - 1]);
      }
    }
  }

  /** Creating a key that is not there yet keeps the key list in enumeration order. */
  lemma {:induction false} InsertKeyOrdered(keys: seq<string>, k: string)
    requires Ordered(keys) && k !in keys
    ensures Ordered(InsertKey(keys, k))
    decreases |keys|
  {
    var r := InsertKey(keys, k);
    if !IsArrayIndex(k) || keys == [] {
      assert r == keys + [k];
    } else if !IsArrayIndex(keys[0]) || Decimal.Value(k) < Decimal.Value(keys[0]) {
      InsertKeyFrontOrdered(keys, k);
    } else {
      var rest := InsertKey(keys[1..], k);
      InsertKeyOrdered(keys[1..], k);
      assert r == [keys[0]] + rest;
      forall i, j | 0 <= i < j < |r| && IsArrayIndex(r[j])
        ensures IsArrayIndex(r[i]) && Decimal.Value(r[i]) < Decimal.Value(r[j])
      {
        if i > 0 {
          assert r[i] == rest[i - 1];
        } else {
          InsertKeyFirst(keys, k, r[j]);
        }
      }
    }
  }

  /** In the recursive case every key of the rest comes after the first key. */
  lemma InsertKeyFirst(keys: seq<string>, k: string, x: string)
    requires Ordered(keys) && k !in keys && keys != [] && IsArrayIndex(k) && IsArrayIndex(keys[0])
    requires Decimal.Value(k) >= Decimal.Value(keys[0])
    requires x in keys[1..] || x == k
    requires IsArrayIndex(x)
    ensures Decimal.Value(keys[0]) < Decimal.Value(x)
  {
    if x != k {
      var m :| 0 <= m < |keys[1..]| && keys[1..][m] == x;
      assert keys[m + 1] == x;
    } else if Decimal.Value(keys[0]) == Decimal.Value(k) {
      IndexValueInjective(keys[0], k);
    }
  }

  /** `o[k] = v`: an existing key keeps its place; a new one is created where the order says. */
  function Assign<V>(o: Object<V>, k: string, v: V): Object<V>
  {
    if k in o.keys then Object(o.keys, o.values[k := v])
    else Object(InsertKey(o.keys, k), o.values[k := v])
  }

  /** Assignment keeps an object well formed. */
  lemma AssignValid<V>(o: Object<V>, k: string, v: V)
    requires Valid(o)
    ensures Valid(Assign(o, k, v))
  {
    if k !in o.keys {
      InsertKeyOrdered(o.keys, k);
      InsertKeyDistinct(o.keys, k);
    }
  }

  /** Creating an array-index key leaves the last two keys in place when neither is an array index. */
  lemma {:induction false} InsertIndexKeepsTail(keys: seq<string>, k: string)
    requires |keys| >= 2 && !IsArrayIndex(keys[|keys| - 2]) && !IsArrayIndex(keys[|keys| - 1])
    requires IsArrayIndex(k)
    ensures InsertKey(keys, k)[|keys| - 1..] == keys[|keys| - 2..]
    decreases |keys|
  {
    if IsArrayIndex(keys[0]) && Decimal.Value(k) >= Decimal.Value(keys[0]) {
      InsertIndexKeepsTail(keys[1..], k);
      assert InsertKey(keys, k) == [keys[0]] + InsertKey(keys[1..], k);
    }
  }
}
