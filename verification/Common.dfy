/** Types and sequence vocabulary shared by the component models. */
module Common {

  datatype Option<+T> = None | Some(value: T)

  /** An octet. Bit masks and shifts of the original are written as `/`, `%` and `*`. */
  type byte = x: int | 0 <= x < 256

  /** One more than the largest 64-bit size. */
  const SIZE_LIMIT := 0x1_0000_0000_0000_0000

  /** A map has no order of its own; `keys` is one its iteration may take. */
  ghost predicate Lists<K(!new), V>(keys: seq<K>, m: map<K, V>) {
    Distinct(keys) && forall k :: k in keys <==> k in m
  }

  /** The position of the first `x` at or after `from`, and `|s|` when there is none. */
  function Find<T(==)>(s: seq<T>, x: T, from: nat): (r: nat)
    requires from <= |s|
    ensures from <= r <= |s|
    ensures forall i :: from <= i < r ==> s[i] != x
    ensures r < |s| ==> s[r] == x
    decreases |s| - from
  {
    if from == |s| then from
    else if s[from] == x then from
    else Find(s, x, from + 1)
  }

  lemma {:induction false} FindUnique<T>(s: seq<T>, x: T, from: nat, r: nat)
    requires from <= r <= |s|
    requires forall i :: from <= i < r ==> s[i] != x
    requires r < |s| ==> s[r] == x
    ensures Find(s, x, from) == r
    decreases r - from
  {
    if from < r { FindUnique(s, x, from + 1, r); }
  }

  function Flatten<T>(ss: seq<seq<T>>): (r: seq<T>) {
    if ss == [] then [] else ss[0] + Flatten(ss[1..])
  }

  lemma {:induction false} FlattenAppend<T>(a: seq<seq<T>>, b: seq<seq<T>>)
    ensures Flatten(a + b) == Flatten(a) + Flatten(b)
  {
    if a == [] {
      assert a + b == b;
    } else {
      assert (a + b)[1..] == a[1..] + b;
      FlattenAppend(a[1..], b);
    }
  }

  lemma FlattenSingleton<T>(s: seq<T>)
    ensures Flatten([s]) == s
  {
    assert [s][1..] == [];
  }

  lemma FrontSlice<T>(p: seq<T>, q: seq<T>, lo: nat, hi: nat)
    requires lo <= hi <= |p|
    ensures (p + q)[lo..hi] == p[lo..hi]
  {
  }

  lemma MiddleSlice<T>(a: seq<T>, b: seq<T>, c: seq<T>)
    ensures (a + b + c)[|a|..|a| + |b|] == b
  {
  }

  function Max(a: int, b: int): int { if a >= b then a else b }

  function Min(a: int, b: int): int { if a <= b then a else b }

  predicate Distinct<T(==)>(s: seq<T>) {
    forall i, j :: 0 <= i < j < |s| ==> s[i] != s[j]
  }

  /** A sequence without repetitions has as many elements as its set of values. */
  lemma {:induction false} DistinctLength<T>(s: seq<T>, values: set<T>)
    requires Distinct(s)
    requires forall x :: x in s ==> x in values
    ensures |s| <= |values|
  {
    if s != [] {
      var last := s[|s| - 1];
      var front := s[..|s| - 1];
      assert last in s && last !in front;
      forall x | x in front ensures x in values - {last} { assert x in s; }
      DistinctLength(front, values - {last});
    }
  }

  // Integer arithmetic with a variable divisor.

  lemma MulApart(k: int, d: int)
    requires d > 0
    ensures k >= 1 ==> k * d >= d
    ensures k <= -1 ==> k * d <= -d
  {
    if k >= 1 { assert (k - 1) * d >= 0; }
    if k <= -1 { assert (k + 1) * d <= 0; }
  }

  lemma DivUnique(n: int, d: int, q: int, r: int)
    requires d > 0 && n == q * d + r && 0 <= r < d
    ensures n / d == q && n % d == r
  {
    var k := n / d - q;
    assert k * d == n / d * d - q * d;
    MulApart(k, d);
  }
}
