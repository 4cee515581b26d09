/**
 * A plain ECMAScript object with string-valued own properties, as the
 * extractor uses for `globals` and for each device's `variables`. Besides the
 * values it records the order in which keys were created, because `for…in`
 * and object spread visit keys in the order of OrdinaryOwnPropertyKeys:
 * array-index keys first, in ascending numeric order, then every other key in
 * creation order.
 */
module JsObject {
  import opened Wrappers
  import opened JsString

  datatype Object = Object(keys: seq<String>, vals: map<String, String>)

  const Empty := Object([], map[])

  ghost predicate Distinct(ks: seq<String>) {
    forall i, j | 0 <= i < j < |ks| :: ks[i] != ks[j]
  }

  /** Each key is listed once, and exactly the listed keys have values. */
  ghost predicate Valid(o: Object) {
    Distinct(o.keys) && forall k :: k in o.vals <==> k in o.keys
  }

  /** `o[k]`, with `None` for a missing property. */
  function Get(o: Object, k: String): Option<String> {
    if k in o.vals then Some(o.vals[k]) else None
  }

  /** `o[k]` converted to a string, as `replaceAll` converts its replacement: a missing value reads "undefined". */
  function ValueOf(o: Object, k: String): String {
    if k in o.vals then o.vals[k] else "undefined"
  }

  /** `o[k] = v`: an existing key keeps its place, a new key goes last. */
  function Set(o: Object, k: String, v: String): (r: Object)
    ensures r.vals == o.vals[k := v]
    ensures k in o.vals ==> r.keys == o.keys
    ensures k !in o.vals ==> r.keys == o.keys + [k]
  {
    if k in o.vals then o.(vals := o.vals[k := v]) else Object(o.keys + [k], o.vals[k := v])
  }

  lemma SetValid(o: Object, k: String, v: String)
    requires Valid(o)
    ensures Valid(Set(o, k, v))
  {
    if k !in o.vals {
      var ks := o.keys + [k];
      forall i, j | 0 <= i < j < |ks| ensures ks[i] != ks[j] {
        if j == |o.keys| { assert ks[i] in o.keys; }
      }
    }
  }

  /** The value of a string of decimal digits (a non-digit counts as 0). */
  function DecimalValue(k: String): nat {
    if k == [] then 0
    else DecimalValue(k[..|k| - 1]) * 10 + (if IsDigit(k[|k| - 1]) then k[|k| - 1] as int - '0' as int else 0)
  }

  /** A canonical numeric string below 2^32 - 1: the keys ECMAScript treats as array indices. */
  predicate IsArrayIndex(k: String) {
    && 0 < |k|
    && (forall i | 0 <= i < |k| :: IsDigit(k[i]))
    && (k[0] != '0' || |k| == 1)
    && DecimalValue(k) < 0xFFFF_FFFF
  }

  function IndexKeys(ks: seq<String>): (r: seq<String>)
    ensures forall i | 0 <= i < |r| :: IsArrayIndex(r[i])
  {
    if ks == [] then []
    else (if IsArrayIndex(ks[0]) then [ks[0]] else []) + IndexKeys(ks[1..])
  }

  function NamedKeys(ks: seq<String>): (r: seq<String>)
    ensures forall i | 0 <= i < |r| :: !IsArrayIndex(r[i])
  {
    if ks == [] then []
    else (if IsArrayIndex(ks[0]) then [] else [ks[0]]) + NamedKeys(ks[1..])
  }

  ghost predicate Ascending(ks: seq<String>) {
    forall i, j | 0 <= i < j < |ks| :: DecimalValue(ks[i]) <= DecimalValue(ks[j])
  }

  function InsertIndex(k: String, sorted: seq<String>): seq<String> {
    if sorted == [] then [k]
    else if DecimalValue(k) <= DecimalValue(sorted[0]) then [k] + sorted
    else [sorted[0]] + InsertIndex(k, sorted[1..])
  }

  /** Insertion sort of array-index keys by numeric value. */
  function SortIndices(ks: seq<String>): seq<String> {
    if ks == [] then [] else InsertIndex(ks[0], SortIndices(ks[1..]))
  }

  lemma AscendingTail(s: seq<String>)
    requires Ascending(s) && s != []
    ensures Ascending(s[1..])
  {
    forall i, j | 0 <= i < j < |s| - 1 ensures DecimalValue(s[1..][i]) <= DecimalValue(s[1..][j]) {
      assert s[1..][i] == s[i + 1] && s[1..][j] == s[j + 1];
    }
  }

  lemma AscendingCons(x: String, s: seq<String>)
    requires Ascending(s)
    requires forall y | y in s :: DecimalValue(x) <= DecimalValue(y)
    ensures Ascending([x] + s)
  {
    var r := [x] + s;
    forall i, j | 0 <= i < j < |r| ensures DecimalValue(r[i]) <= DecimalValue(r[j]) {
      assert r[j] == s[j - 1];
      if 0 < i { assert r[i] == s[i - 1]; }
    }
  }

  lemma {:induction false} InsertIndexPermutes(k: String, sorted: seq<String>)
    ensures multiset(InsertIndex(k, sorted)) == multiset(sorted) + multiset{k}
    decreases |sorted|
  {
    if sorted != [] && DecimalValue(k) > DecimalValue(sorted[0]) {
      InsertIndexPermutes(k, sorted[1..]);
      assert sorted == [sorted[0]] + sorted[1..];
    }
  }

  lemma {:induction false} InsertIndexSorted(k: String, sorted: seq<String>)
    requires Ascending(sorted)
    ensures Ascending(InsertIndex(k, sorted))
    decreases |sorted|
  {
    if sorted == [] {
    } else if DecimalValue(k) <= DecimalValue(sorted[0]) {
      forall y | y in sorted ensures DecimalValue(k) <= DecimalValue(y) {
        var i :| 0 <= i < |sorted| && sorted[i] == y;
        if 0 < i { assert DecimalValue(sorted[0]) <= DecimalValue(sorted[i]); }
      }
      AscendingCons(k, sorted);
    } else {
      var tail := sorted[1..];
      AscendingTail(sorted);
      InsertIndexSorted(k, tail);
      InsertIndexPermutes(k, tail);
      var rest := InsertIndex(k, tail);
      assert sorted == [sorted[0]] + tail;
      forall y | y in rest ensures DecimalValue(sorted[0]) <= DecimalValue(y) {
        assert y in multiset(rest);
        if y != k {
          assert y in multiset(tail);
          var i :| 0 <= i < |tail| && tail[i] == y;
          assert sorted[i + 1] == y;
        }
      }
      AscendingCons(sorted[0], rest);
    }
  }

  lemma {:induction false} SortIndicesSorted(ks: seq<String>)
    ensures Ascending(SortIndices(ks))
    ensures multiset(SortIndices(ks)) == multiset(ks)
  {
    if ks != [] {
      SortIndicesSorted(ks[1..]);
      InsertIndexSorted(ks[0], SortIndices(ks[1..]));
      InsertIndexPermutes(ks[0], SortIndices(ks[1..]));
      assert ks == [ks[0]] + ks[1..];
    }
  }

  /** The order in which `for…in` and spread visit the keys of `o`. */
  function Enumerate(o: Object): seq<String> {
    SortIndices(IndexKeys(o.keys)) + NamedKeys(o.keys)
  }

  lemma {:induction false} PartitionKeys(ks: seq<String>)
    ensures multiset(IndexKeys(ks)) + multiset(NamedKeys(ks)) == multiset(ks)
  {
    if ks != [] {
      PartitionKeys(ks[1..]);
      assert ks == [ks[0]] + ks[1..];
    }
  }

  lemma {:induction false} DistinctMultiplicity(s: seq<String>)
    ensures Distinct(s) <==> forall x :: multiset(s)[x] <= 1
  {
    if s != [] {
      DistinctMultiplicity(s[1..]);
      assert s == [s[0]] + s[1..];
      if Distinct(s) {
        assert Distinct(s[1..]) by {
          forall i, j | 0 <= i < j < |s[1..]| ensures s[1..][i] != s[1..][j] {
            assert s[1..][i] == s[i + 1] && s[1..][j] == s[j + 1];
          }
        }
        assert s[0] !in s[1..];
      }
      if forall x :: multiset(s)[x] <= 1 {
        assert multiset(s[1..])[s[0]] == 0;
        assert forall x :: multiset(s[1..])[x] <= multiset(s)[x];
        forall i, j | 0 <= i < j < |s| ensures s[i] != s[j] {
          if i == 0 {
            assert s[j] in s[1..];
          } else {
            assert s[i] == s[1..][i - 1] && s[j] == s[1..][j - 1];
          }
        }
      }
    }
  }

  lemma EnumeratePermutes(o: Object)
    ensures multiset(Enumerate(o)) == multiset(o.keys)
  {
    SortIndicesSorted(IndexKeys(o.keys));
    PartitionKeys(o.keys);
  }

  /**
   * `for…in` visits every own key exactly once: the enumeration is a
   * permutation of the keys, array indices come first in ascending numeric
   * order, and the other keys keep their creation order.
   */
  lemma EnumerateOrder(o: Object)
    ensures multiset(Enumerate(o)) == multiset(o.keys)
    ensures Distinct(o.keys) ==> Distinct(Enumerate(o))
    ensures forall i, j | 0 <= i < j < |Enumerate(o)| && IsArrayIndex(Enumerate(o)[j]) ::
      IsArrayIndex(Enumerate(o)[i]) && DecimalValue(Enumerate(o)[i]) <= DecimalValue(Enumerate(o)[j])
    ensures NamedKeys(Enumerate(o)) == NamedKeys(o.keys)
  {
    var e := Enumerate(o);
    var sorted := SortIndices(IndexKeys(o.keys));
    var named := NamedKeys(o.keys);
    EnumeratePermutes(o);
    SortIndicesSorted(IndexKeys(o.keys));
    if Distinct(o.keys) {
      DistinctMultiplicity(o.keys);
      DistinctMultiplicity(e);
    }
    forall i | 0 <= i < |sorted| ensures IsArrayIndex(sorted[i]) {
      assert sorted[i] in multiset(IndexKeys(o.keys));
    }
    forall i, j | 0 <= i < j < |e| && IsArrayIndex(e[j])
      ensures IsArrayIndex(e[i]) && DecimalValue(e[i]) <= DecimalValue(e[j])
    {
      assert e[i] == sorted[i] && e[j] == sorted[j];
    }
    NamedKeysAppend(sorted, named);
    NamedKeysOfIndices(sorted);
    NamedKeysOfNamed(named);
  }

  lemma {:induction false} NamedKeysAppend(a: seq<String>, b: seq<String>)
    ensures NamedKeys(a + b) == NamedKeys(a) + NamedKeys(b)
  {
    if a != [] {
      NamedKeysAppend(a[1..], b);
      assert (a + b)[0] == a[0] && (a + b)[1..] == a[1..] + b;
    } else {
      assert a + b == b;
    }
  }

  lemma {:induction false} NamedKeysOfIndices(a: seq<String>)
    requires forall i | 0 <= i < |a| :: IsArrayIndex(a[i])
    ensures NamedKeys(a) == []
  {
    if a != [] { NamedKeysOfIndices(a[1..]); }
  }

  lemma {:induction false} NamedKeysOfNamed(a: seq<String>)
    requires forall i | 0 <= i < |a| :: !IsArrayIndex(a[i])
    ensures NamedKeys(a) == a
  {
    if a != [] { NamedKeysOfNamed(a[1..]); }
  }

  /** Copies the listed properties of `src` onto `t`, in order. */
  function CopyKeys(t: Object, src: Object, ks: seq<String>): Object
    decreases |ks|
  {
    if ks == [] then t else CopyKeys(Set(t, ks[0], ValueOf(src, ks[0])), src, ks[1..])
  }

  /** `{ ...a, ...b }`: a fresh object that receives the properties of `a`, then those of `b`. */
  function Spread(a: Object, b: Object): Object {
    CopyKeys(CopyKeys(Empty, a, Enumerate(a)), b, Enumerate(b))
  }

  /** The listed keys that `m` does not yet hold, in list order. */
  function FreshKeys(ks: seq<String>, m: map<String, String>): seq<String> {
    if ks == [] then [] else (if ks[0] in m then [] else [ks[0]]) + FreshKeys(ks[1..], m)
  }

  lemma {:induction false} CopyKeysValid(t: Object, src: Object, ks: seq<String>)
    requires Valid(t)
    ensures Valid(CopyKeys(t, src, ks))
    decreases |ks|
  {
    if ks != [] {
      SetValid(t, ks[0], ValueOf(src, ks[0]));
      CopyKeysValid(Set(t, ks[0], ValueOf(src, ks[0])), src, ks[1..]);
    }
  }

  lemma {:induction false} CopyKeysVals(t: Object, src: Object, ks: seq<String>)
    ensures forall k :: k in CopyKeys(t, src, ks).vals <==> k in t.vals || k in ks
    ensures forall k | k in CopyKeys(t, src, ks).vals ::
      CopyKeys(t, src, ks).vals[k] == if k in ks then ValueOf(src, k) else t.vals[k]
    decreases |ks|
  {
    if ks != [] {
      var t' := Set(t, ks[0], ValueOf(src, ks[0]));
      CopyKeysVals(t', src, ks[1..]);
      assert forall k :: k in ks <==> k == ks[0] || k in ks[1..] by {
        assert ks == [ks[0]] + ks[1..];
      }
    }
  }

  lemma {:induction false} CopyKeysKeys(t: Object, src: Object, ks: seq<String>)
    requires Distinct(ks)
    ensures CopyKeys(t, src, ks).keys == t.keys + FreshKeys(ks, t.vals)
    decreases |ks|
  {
    if ks != [] {
      var t' := Set(t, ks[0], ValueOf(src, ks[0]));
      assert Distinct(ks[1..]) by {
        forall i, j | 0 <= i < j < |ks[1..]| ensures ks[1..][i] != ks[1..][j] {
          assert ks[1..][i] == ks[i + 1] && ks[1..][j] == ks[j + 1];
        }
      }
      CopyKeysKeys(t', src, ks[1..]);
      assert ks[0] !in ks[1..] by {
        forall i | 0 <= i < |ks[1..]| ensures ks[1..][i] != ks[0] { assert ks[1..][i] == ks[i + 1]; }
      }
      FreshKeysSkip(ks[1..], t.vals, ks[0], ValueOf(src, ks[0]));
    }
  }

  lemma {:induction false} FreshKeysSkip(ks: seq<String>, m: map<String, String>, k: String, v: String)
    requires k !in ks
    ensures FreshKeys(ks, m[k := v]) == FreshKeys(ks, m)
  {
    if ks != [] { FreshKeysSkip(ks[1..], m, k, v); }
  }

  lemma EnumerateDistinct(o: Object)
    requires Valid(o)
    ensures Distinct(Enumerate(o))
    ensures forall k :: k in Enumerate(o) <==> k in o.vals
  {
    EnumerateOrder(o);
    assert forall k :: k in Enumerate(o) <==> k in multiset(o.keys);
  }

  /**
   * `{ ...a, ...b }` holds every key of either object; a key of `b` takes
   * `b`'s value, any other key keeps `a`'s. Keys come in `a`'s enumeration
   * order, followed by the keys only `b` has, in `b`'s enumeration order.
   */
  lemma SpreadShape(a: Object, b: Object)
    requires Valid(a) && Valid(b)
    ensures Valid(Spread(a, b))
    ensures Spread(a, b).vals == a.vals + b.vals
    ensures Spread(a, b).keys == Enumerate(a) + FreshKeys(Enumerate(b), a.vals)
  {
    var t := CopyKeys(Empty, a, Enumerate(a));
    CopyIntoEmpty(a);
    CopyKeysValid(t, b, Enumerate(b));
    CopyOnto(t, b);
    EnumerateDistinct(b);
    CopyKeysKeys(t, b, Enumerate(b));
  }

  /** Copying every key of `o` onto an empty object reproduces `o`'s values, in enumeration order. */
  lemma CopyIntoEmpty(o: Object)
    requires Valid(o)
    ensures Valid(CopyKeys(Empty, o, Enumerate(o)))
    ensures CopyKeys(Empty, o, Enumerate(o)).vals == o.vals
    ensures CopyKeys(Empty, o, Enumerate(o)).keys == Enumerate(o)
  {
    CopyIntoEmptyValid(o);
    CopyIntoEmptyVals(o);
    CopyIntoEmptyKeys(o);
  }

  lemma CopyIntoEmptyValid(o: Object)
    ensures Valid(CopyKeys(Empty, o, Enumerate(o)))
  {
    CopyKeysValid(Empty, o, Enumerate(o));
  }

  lemma CopyIntoEmptyVals(o: Object)
    requires Valid(o)
    ensures CopyKeys(Empty, o, Enumerate(o)).vals == o.vals
  {
    CopyOnto(Empty, o);
    assert Empty.vals + o.vals == o.vals;
  }

  lemma CopyIntoEmptyKeys(o: Object)
    requires Valid(o)
    ensures CopyKeys(Empty, o, Enumerate(o)).keys == Enumerate(o)
  {
    EnumerateDistinct(o);
    CopyKeysKeys(Empty, o, Enumerate(o));
    FreshKeysAll(Enumerate(o));
  }

  /** Copying every key of `o` onto `t` overrides `t`'s values with `o`'s. */
  lemma CopyOnto(t: Object, o: Object)
    requires Valid(o)
    ensures CopyKeys(t, o, Enumerate(o)).vals == t.vals + o.vals
  {
    EnumerateDistinct(o);
    CopyKeysVals(t, o, Enumerate(o));
  }

  lemma {:induction false} FreshKeysAll(ks: seq<String>)
    ensures FreshKeys(ks, map[]) == ks
  {
    if ks != [] { FreshKeysAll(ks[1..]); }
  }

  /** `{ ...o }`: a copy of `o` whose keys are created in `o`'s enumeration order. */
  function Clone(o: Object): Object {
    Spread(Empty, o)
  }

  lemma CloneShape(o: Object)
    requires Valid(o)
    ensures Valid(Clone(o)) && Clone(o).vals == o.vals && Clone(o).keys == Enumerate(o)
  {
    assert Enumerate(Empty) == [];
    assert CopyKeys(Empty, Empty, Enumerate(Empty)) == Empty;
    CopyIntoEmpty(o);
  }
}
