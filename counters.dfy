/** Python's `collections.Counter` over a column: an insertion-ordered dictionary from
    each distinct value to the number of times it occurs. The insertion order is the order
    in which the values are first seen, which decides ties in `get_most_frequent_value`. */
module Counters {
  import opened Numeric

  /** The keys, in dictionary order. */
  function KeysOf<T>(c: seq<(T, nat)>): (ks: seq<T>)
    ensures |ks| == |c|
    ensures forall i :: 0 <= i < |c| ==> ks[i] == c[i].0
  {
    if c == [] then [] else [c[0].0] + KeysOf(c[1..])
  }

  /** The sum of the counts. */
  function Total<T>(c: seq<(T, nat)>): nat
  {
    if c == [] then 0 else c[0].1 + Total(c[1..])
  }

  /** `counter[k]`, which is 0 for a key that is absent. */
  function Get<T(==)>(c: seq<(T, nat)>, k: T): nat
  {
    if c == [] then 0 else if c[0].0 == k then c[0].1 else Get(c[1..], k)
  }

  ghost predicate DistinctKeys<T>(c: seq<(T, nat)>) {
    forall i, j :: 0 <= i < j < |c| ==> c[i].0 != c[j].0
  }

  /** `counter[x] += 1`: adds one to an existing key, or appends the key with count 1. */
  function Bump<T(==)>(c: seq<(T, nat)>, x: T): (r: seq<(T, nat)>)
    ensures KeysOf(r) == if x in KeysOf(c) then KeysOf(c) else KeysOf(c) + [x]
  {
    if c == [] then [(x, 1)]
    else if c[0].0 == x then [(x, c[0].1 + 1)] + c[1..]
    else [c[0]] + Bump(c[1..], x)
  }

  lemma {:induction false} BumpTotal<T>(c: seq<(T, nat)>, x: T)
    ensures Total(Bump(c, x)) == Total(c) + 1
  {
    if c != [] && c[0].0 != x {
      BumpTotal(c[1..], x);
      assert Bump(c, x)[1..] == Bump(c[1..], x);
    }
  }

  lemma {:induction false} BumpGet<T>(c: seq<(T, nat)>, x: T, k: T)
    ensures Get(Bump(c, x), k) == Get(c, k) + (if k == x then 1 else 0)
  {
    if c != [] && c[0].0 != x {
      BumpGet(c[1..], x, k);
      assert Bump(c, x)[1..] == Bump(c[1..], x);
    }
  }

  /** With distinct keys, the count stored at a position is the count of its key. */
  lemma {:induction false} GetAt<T>(c: seq<(T, nat)>, i: int)
    requires DistinctKeys(c) && 0 <= i < |c|
    ensures Get(c, c[i].0) == c[i].1
  {
    if i > 0 {
      assert DistinctKeys(c[1..]);
      GetAt(c[1..], i - 1);
    }
  }

  /** `Counter(xs)`, built one element at a time as Python does. */
  function Counter<T(==)>(xs: seq<T>): seq<(T, nat)>
  {
    if xs == [] then [] else Bump(Counter(xs[..|xs| - 1]), xs[|xs| - 1])
  }

  /** The keys of `Counter(xs)` are the values of `xs`, each once. */
  lemma CounterKeys<T>(xs: seq<T>)
    ensures forall i :: 0 <= i < |xs| ==> xs[i] in KeysOf(Counter(xs))
    ensures forall j :: 0 <= j < |Counter(xs)| ==> Counter(xs)[j].0 in xs
    ensures DistinctKeys(Counter(xs))
  {
    CounterHasAll(xs);
    CounterKeysFrom(xs);
    CounterKeysDistinct(xs);
    var c, ks := Counter(xs), KeysOf(Counter(xs));
    assert forall j :: 0 <= j < |c| ==> c[j].0 == ks[j];
  }

  /** One more value: the keys gain it at the end unless it is a key already. */
  lemma CounterSnoc<T>(xs: seq<T>)
    requires xs != []
    ensures KeysOf(Counter(xs)) == (var ks0 := KeysOf(Counter(xs[..|xs| - 1]));
      if xs[|xs| - 1] in ks0 then ks0 else ks0 + [xs[|xs| - 1]])
  {
  }

  lemma {:induction false} CounterHasAll<T>(xs: seq<T>)
    ensures forall i :: 0 <= i < |xs| ==> xs[i] in KeysOf(Counter(xs))
  {
    if xs != [] {
      CounterHasAll(xs[..|xs| - 1]);
      CounterSnoc(xs);
      ExtendHas(xs, xs[..|xs| - 1], KeysOf(Counter(xs[..|xs| - 1])), KeysOf(Counter(xs)));
    }
  }

  lemma ExtendHas<T>(xs: seq<T>, init: seq<T>, ks0: seq<T>, ks: seq<T>)
    requires xs != [] && init == xs[..|xs| - 1]
    requires forall i :: 0 <= i < |init| ==> init[i] in ks0
    requires ks == if xs[|xs| - 1] in ks0 then ks0 else ks0 + [xs[|xs| - 1]]
    ensures forall i :: 0 <= i < |xs| ==> xs[i] in ks
  {
    forall i | 0 <= i < |xs| ensures xs[i] in ks {
      if i < |xs| - 1 {
        assert init[i] == xs[i];
      }
    }
  }

  lemma {:induction false} CounterKeysFrom<T>(xs: seq<T>)
    ensures forall j :: 0 <= j < |KeysOf(Counter(xs))| ==> KeysOf(Counter(xs))[j] in xs
  {
    if xs != [] {
      var init := xs[..|xs| - 1];
      CounterKeysFrom(init);
      CounterSnoc(xs);
      var ks0, ks := KeysOf(Counter(init)), KeysOf(Counter(xs));
      forall j | 0 <= j < |ks| ensures ks[j] in xs {
        if j < |ks0| {
          assert ks[j] == ks0[j];
          var p :| 0 <= p < |init| && init[p] == ks0[j];
          assert xs[p] == init[p];
        } else {
          assert ks[j] == xs[|xs| - 1];
        }
      }
    }
  }

  lemma {:induction false} CounterKeysDistinct<T>(xs: seq<T>)
    ensures forall i, j :: 0 <= i < j < |KeysOf(Counter(xs))| ==> KeysOf(Counter(xs))[i] != KeysOf(Counter(xs))[j]
  {
    if xs != [] {
      var init := xs[..|xs| - 1];
      CounterKeysDistinct(init);
      CounterSnoc(xs);
    }
  }

  /** `Counter(xs)[k]` is the number of occurrences of `k`. */
  lemma {:induction false} CounterGet<T>(xs: seq<T>, k: T)
    ensures Get(Counter(xs), k) == Count(xs, k)
  {
    if xs != [] {
      CounterGet(xs[..|xs| - 1], k);
      BumpGet(Counter(xs[..|xs| - 1]), xs[|xs| - 1], k);
    }
  }

  /** The counts add up to the length of the column. */
  lemma {:induction false} CounterTotal<T>(xs: seq<T>)
    ensures Total(Counter(xs)) == |xs|
  {
    if xs != [] {
      CounterTotal(xs[..|xs| - 1]);
      BumpTotal(Counter(xs[..|xs| - 1]), xs[|xs| - 1]);
    }
  }

  /** `del counter[k]`: the dictionary without key `k` (unchanged when it has no such key). */
  function Delete<T(==)>(c: seq<(T, nat)>, k: T): (r: seq<(T, nat)>)
    ensures |r| <= |c|
  {
    if c == [] then [] else if c[0].0 == k then Delete(c[1..], k) else [c[0]] + Delete(c[1..], k)
  }

  /** After the deletion `k` counts nothing and every other key keeps its count. */
  lemma {:induction false} DeleteGet<T>(c: seq<(T, nat)>, k: T, j: T)
    ensures Get(Delete(c, k), j) == if j == k then 0 else Get(c, j)
  {
    if c != [] {
      DeleteGet(c[1..], k, j);
    }
  }

  /** The deletion keeps the other keys, in order, and drops the count of `k` from the total. */
  lemma {:induction false} DeleteKeys<T>(c: seq<(T, nat)>, k: T)
    requires DistinctKeys(c)
    ensures DistinctKeys(Delete(c, k))
    ensures forall x :: x in KeysOf(Delete(c, k)) <==> x in KeysOf(c) && x != k
    ensures Total(Delete(c, k)) + Get(c, k) == Total(c)
  {
    if c != [] {
      assert DistinctKeys(c[1..]);
      DeleteKeys(c[1..], k);
      if c[0].0 == k {
        assert k !in KeysOf(c[1..]);
        GetAbsent(c[1..], k);
      } else {
        var d := Delete(c[1..], k);
        assert Delete(c, k) == [c[0]] + d;
        forall i, j | 0 <= i < j < |[c[0]] + d| ensures ([c[0]] + d)[i].0 != ([c[0]] + d)[j].0 {
          if i == 0 {
            assert d[j - 1].0 in KeysOf(d);
          }
        }
      }
    }
  }

  lemma {:induction false} GetAbsent<T>(c: seq<(T, nat)>, k: T)
    requires k !in KeysOf(c)
    ensures Get(c, k) == 0
  {
    if c != [] {
      assert KeysOf(c) == [c[0].0] + KeysOf(c[1..]);
      GetAbsent(c[1..], k);
    }
  }

  /** Each entry pairs a value of the column with its number of occurrences. */
  lemma CounterAt<T>(xs: seq<T>, i: int)
    requires 0 <= i < |Counter(xs)|
    ensures Counter(xs)[i].0 in xs
    ensures Counter(xs)[i].1 == Count(xs, Counter(xs)[i].0)
  {
    CounterKeys(xs);
    assert KeysOf(Counter(xs))[i] == Counter(xs)[i].0;
    GetAt(Counter(xs), i);
    CounterGet(xs, Counter(xs)[i].0);
  }

  /** Every occurrence of `b` in `xs` comes after an occurrence of `a`. */
  ghost predicate SeenBefore<T>(xs: seq<T>, a: T, b: T) {
    forall p :: 0 <= p < |xs| && xs[p] == b ==> a in xs[..p]
  }

  /** The keys of `Counter(xs)` are in the order their values are first seen in `xs`. */
  lemma {:induction false} CounterFirstSeenOrder<T>(xs: seq<T>)
    ensures forall i, j :: 0 <= i < j < |KeysOf(Counter(xs))| ==>
      SeenBefore(xs, KeysOf(Counter(xs))[i], KeysOf(Counter(xs))[j])
  {
    if xs != [] {
      var init, x := xs[..|xs| - 1], xs[|xs| - 1];
      assert xs == init + [x];
      CounterFirstSeenOrder(init);
      CounterHasAll(init);
      CounterKeysFrom(init);
      CounterSnoc(xs);
      var ks0, ks := KeysOf(Counter(init)), KeysOf(Counter(xs));
      forall i, j | 0 <= i < j < |ks| ensures SeenBefore(xs, ks[i], ks[j]) {
        assert ks[i] == ks0[i];
        if j < |ks0| {
          assert ks[j] == ks0[j];
        } else {
          assert x !in init;
        }
        SeenBeforeSnoc(init, x, ks[i], ks[j]);
      }
    }
  }

  lemma SeenBeforeSnoc<T>(init: seq<T>, x: T, a: T, b: T)
    requires b in init ==> SeenBefore(init, a, b)
    requires b == x ==> a in init
    ensures SeenBefore(init + [x], a, b)
  {
    var xs := init + [x];
    forall p | 0 <= p < |xs| && xs[p] == b ensures a in xs[..p] {
      if p < |init| {
        assert init[p] == b;
        assert xs[..p] == init[..p];
      } else {
        assert xs[..p] == init;
      }
    }
  }

  lemma KeyBefore<T>(xs: seq<T>, a: int, b: int, p: int)
    requires 0 <= a < b < |Counter(xs)| && 0 <= p < |xs| && xs[p] == Counter(xs)[b].0
    ensures Counter(xs)[a].0 in xs[..p + 1]
  {
    CounterFirstSeenOrder(xs);
    var ks := KeysOf(Counter(xs));
    assert SeenBefore(xs, ks[a], ks[b]);
    assert xs[..p] <= xs[..p + 1];
  }

  /** Position of the first largest count: `counts.index(max(counts))`. */
  function ArgMaxFirst<T>(c: seq<(T, nat)>): (r: nat)
    requires |c| > 0
    ensures r < |c|
    ensures forall j :: 0 <= j < |c| ==> c[j].1 <= c[r].1
    ensures forall j :: 0 <= j < r ==> c[j].1 < c[r].1
  {
    if |c| == 1 then 0
    else
      var init := c[..|c| - 1];
      var r := ArgMaxFirst(init);
      assert forall j :: 0 <= j < |init| ==> init[j] == c[j];
      if c[|c| - 1].1 > c[r].1 then |c| - 1 else r
  }

  /** `get_most_frequent_value`: a value of the column with the largest count and,
      among several such values, the one seen first. */
  function MostFrequent<T(==,!new)>(xs: seq<T>): (r: T)
    requires |xs| > 0
    ensures r in xs
    ensures forall x :: x in xs ==> Count(xs, x) <= Count(xs, r)
    ensures forall x :: x in xs && Count(xs, x) == Count(xs, r) ==> FirstIndex(xs, r) <= FirstIndex(xs, x)
  {
    var c := Counter(xs);
    CounterKeys(xs);
    assert xs[0] in KeysOf(c);
    var k := ArgMaxFirst(c);
    CounterAt(xs, k);
    forall x | x in xs
      ensures Count(xs, x) <= Count(xs, c[k].0)
      ensures Count(xs, x) == Count(xs, c[k].0) ==> FirstIndex(xs, c[k].0) <= FirstIndex(xs, x)
    {
      MostFrequentAt(xs, c, k, x);
    }
    c[k].0
  }

  lemma MostFrequentAt<T>(xs: seq<T>, c: seq<(T, nat)>, k: nat, x: T)
    requires c == Counter(xs) && k < |c| && x in xs
    requires forall j :: 0 <= j < |c| ==> c[j].1 <= c[k].1
    requires forall j :: 0 <= j < k ==> c[j].1 < c[k].1
    ensures c[k].0 in xs
    ensures Count(xs, x) <= Count(xs, c[k].0)
    ensures Count(xs, x) == Count(xs, c[k].0) ==> FirstIndex(xs, c[k].0) <= FirstIndex(xs, x)
  {
    var i := FirstIndex(xs, x);
    CounterKeys(xs);
    CounterAt(xs, k);
    var ks := KeysOf(c);
    var j :| 0 <= j < |ks| && ks[j] == xs[i];
    CounterAt(xs, j);
    if Count(xs, x) == Count(xs, c[k].0) {
      if j != k {
        assert k < j;
        KeyBefore(xs, k, j, i);
        FirstIndexWithin(xs, c[k].0, i + 1);
      }
    }
  }

  /** The position of the first occurrence of `x`. */
  function FirstIndex<T(==)>(xs: seq<T>, x: T): (p: nat)
    requires x in xs
    ensures p < |xs| && xs[p] == x && x !in xs[..p]
  {
    if xs[0] == x then 0
    else
      var p := FirstIndex(xs[1..], x);
      assert xs[..p + 1] == [xs[0]] + xs[1..][..p];
      p + 1
  }

  lemma FirstIndexWithin<T>(xs: seq<T>, x: T, n: int)
    requires 0 <= n <= |xs| && x in xs[..n]
    ensures FirstIndex(xs, x) < n
  {
  }

  /** The properties of `MostFrequent` single out one value of the column. */
  lemma MostFrequentUnique<T(!new)>(xs: seq<T>, y: T)
    requires y in xs
    requires forall x :: x in xs ==> Count(xs, x) <= Count(xs, y)
    requires forall x :: x in xs && Count(xs, x) == Count(xs, y) ==> FirstIndex(xs, y) <= FirstIndex(xs, x)
    ensures y == MostFrequent(xs)
  {
    var r := MostFrequent(xs);
    assert Count(xs, r) == Count(xs, y);
    assert FirstIndex(xs, r) == FirstIndex(xs, y);
  }
}
