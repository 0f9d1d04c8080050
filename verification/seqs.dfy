/** Sequence and collection helpers: concatenation, subsequences, a fixed
    enumeration of a set or multiset (standing for the iteration order of a
    Python `dict` or `Counter`), and the sum of a map's values. */
module Seqs {

  /** `''.join(parts)` / `itertools.chain`: the concatenation of the parts. */
  function Flatten<T>(parts: seq<seq<T>>): seq<T>
  {
    if parts == [] then [] else parts[0] + Flatten(parts[1..])
  }

  lemma ConcatAssoc<T>(a: seq<T>, b: seq<T>, c: seq<T>)
    ensures (a + b) + c == a + (b + c)
  {
  }

  lemma {:induction false} FlattenAppend<T>(a: seq<seq<T>>, b: seq<seq<T>>)
    ensures Flatten(a + b) == Flatten(a) + Flatten(b)
  {
    if a == [] {
      assert a + b == b;
    } else {
      assert (a + b)[1..] == a[1..] + b;
      FlattenAppend(a[1..], b);
    }
  }

  /** Taking one more part adds that part at the end. */
  lemma FlattenTake<T>(parts: seq<seq<T>>, j: int)
    requires 0 < j <= |parts|
    ensures Flatten(parts[..j]) == Flatten(parts[..j - 1]) + parts[j - 1]
  {
    assert parts[..j] == parts[..j - 1] + [parts[j - 1]];
    FlattenAppend(parts[..j - 1], [parts[j - 1]]);
    assert Flatten([parts[j - 1]]) == parts[j - 1];
  }

  lemma PrefixTransitive<T>(a: seq<T>, b: seq<T>, c: seq<T>)
    requires a <= b && b <= c
    ensures a <= c
  {
    assert c[..|a|] == b[..|a|];
  }

  /** `a` is obtained from `b` by deleting elements, keeping the order. */
  predicate IsSubsequence<T(==)>(a: seq<T>, b: seq<T>)
  {
    a == [] || (b != [] && ((a[0] == b[0] && IsSubsequence(a[1..], b[1..])) || IsSubsequence(a, b[1..])))
  }

  lemma {:induction false} SubsequenceReflexive<T>(a: seq<T>)
    ensures IsSubsequence(a, a)
  {
    if a != [] {
      SubsequenceReflexive(a[1..]);
    }
  }

  lemma {:induction false} SubsequenceShorter<T>(a: seq<T>, b: seq<T>)
    requires IsSubsequence(a, b)
    ensures |a| <= |b|
  {
    if a != [] {
      if a[0] == b[0] && IsSubsequence(a[1..], b[1..]) {
        SubsequenceShorter(a[1..], b[1..]);
      } else {
        SubsequenceShorter(a, b[1..]);
      }
    }
  }

  lemma {:induction false} SubsequenceMembers<T>(a: seq<T>, b: seq<T>)
    requires IsSubsequence(a, b)
    ensures forall x :: x in a ==> x in b
  {
    if a != [] {
      if a[0] == b[0] && IsSubsequence(a[1..], b[1..]) {
        SubsequenceMembers(a[1..], b[1..]);
        assert a == [a[0]] + a[1..];
      } else {
        SubsequenceMembers(a, b[1..]);
      }
    }
  }

  /** Taking one more element counts it once more. */
  lemma TakeCount<T>(s: seq<T>, j: int, x: T)
    requires 0 < j <= |s|
    ensures multiset(s[..j])[x] == multiset(s[..j - 1])[x] + (if s[j - 1] == x then 1 else 0)
  {
    assert s[..j] == s[..j - 1] + [s[j - 1]];
  }

  lemma ModSmall(i: nat, n: nat)
    requires i < n
    ensures i % n == i
  {
  }

  /** A fixed listing of the elements of a set, each exactly once. */
  ghost function Enumerate<T(!new)>(s: set<T>): (r: seq<T>)
    ensures |r| == |s|
    ensures forall x :: x in s <==> x in r
    decreases |s|
  {
    if s == {} then []
    else
      var x :| x in s;
      [x] + Enumerate(s - {x})
  }

  /** A fixed listing of a multiset, each element as often as it occurs
      (the role of `Counter.elements()`). */
  ghost function EnumerateBag<T>(m: multiset<T>): (r: seq<T>)
    ensures multiset(r) == m
    decreases |m|
  {
    if m == multiset{} then []
    else
      var x :| x in m;
      [x] + EnumerateBag(m - multiset{x})
  }

  /** The sum of the values of a map. */
  ghost function SumValues<K>(m: map<K, nat>): nat
    decreases |m|
  {
    if m == map[] then 0
    else
      var k :| k in m;
      m[k] + SumValues(m - {k})
  }

  lemma {:induction false} SumValuesRemove<K>(m: map<K, nat>, k: K)
    requires k in m
    ensures SumValues(m) == m[k] + SumValues(m - {k})
    decreases |m|
  {
    var j :| j in m && SumValues(m) == m[j] + SumValues(m - {j});
    if j != k {
      assert (m - {j}) - {k} == (m - {k}) - {j};
      SumValuesRemove(m - {j}, k);
      SumValuesRemove(m - {k}, j);
    }
  }

  /** Σ size(m[k]) over the keys of `m`. */
  ghost function TotalSize<K, V>(m: map<K, V>, size: V -> nat): nat
  {
    SumValues(map k | k in m :: size(m[k]))
  }

  /** Replacing one value changes the total by the difference of the sizes. */
  lemma TotalSizeUpdate<K, V>(m: map<K, V>, size: V -> nat, k: K, v: V)
    ensures TotalSize(m[k := v], size) + (if k in m then size(m[k]) else 0) == TotalSize(m, size) + size(v)
  {
    var sizes := map j | j in m :: size(m[j]);
    var m' := m[k := v];
    assert (map j | j in m' :: size(m'[j])) == sizes[k := size(v)];
    SumValuesUpdate(sizes, k, size(v));
  }

  lemma TotalSizeEmpty<K, V>(m: map<K, V>, size: V -> nat)
    requires m == map[]
    ensures TotalSize(m, size) == 0
  {
    assert (map k | k in m :: size(m[k])) == map[];
  }

  /** Updating one entry changes the sum by the difference at that entry. */
  lemma SumValuesUpdate<K>(m: map<K, nat>, k: K, v: nat)
    ensures SumValues(m[k := v]) + (if k in m then m[k] else 0) == SumValues(m) + v
  {
    var m' := m[k := v];
    SumValuesRemove(m', k);
    assert m' - {k} == m - {k};
    if k in m {
      SumValuesRemove(m, k);
    } else {
      assert m - {k} == m;
    }
  }
}
