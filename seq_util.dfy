/** Sequence operations shared by the query and grouping models: the filters
    behind SQL WHERE clauses, the "distinct in first-occurrence order" of
    PHP's array_unique and of insertion-ordered arrays, per-key buckets and
    sums. Every sequence is scanned from its last element, so that appending
    one row unfolds each definition by one step.
 */
module SeqUtil {

  datatype Option<+T> = None | Some(value: T)

  /** The last element and everything before it. */
  function Init<T>(s: seq<T>): seq<T>
    requires s != []
  {
    s[..|s| - 1]
  }

  function Last<T>(s: seq<T>): T
    requires s != []
  {
    s[|s| - 1]
  }

  lemma InitLast<T>(s: seq<T>)
    requires s != []
    ensures s == Init(s) + [Last(s)]
  {
  }

  /** A sequence that agrees with `s` and then ends in `x` is `s + [x]`. */
  lemma SnocExt<T>(t: seq<T>, s: seq<T>, x: T)
    requires |t| == |s| + 1 && t[|s|] == x
    requires forall i :: 0 <= i < |s| ==> t[i] == s[i]
    ensures t == s + [x]
  {
  }

  /** The elements of `s` that satisfy `p`, in their original order. */
  function Filter<T>(s: seq<T>, p: T -> bool): (r: seq<T>)
    ensures |r| <= |s|
    ensures forall x :: x in r ==> x in s && p(x)
    ensures forall x :: x in s && p(x) ==> x in r
    ensures multiset(r) <= multiset(s)
  {
    if s == [] then []
    else
      InitLast(s);
      var r' := Filter(Init(s), p);
      if p(Last(s)) then r' + [Last(s)] else r'
  }

  lemma FilterSnoc<T>(s: seq<T>, x: T, p: T -> bool)
    ensures Filter(s + [x], p) == Filter(s, p) + (if p(x) then [x] else [])
  {
    assert Init(s + [x]) == s;
  }

  /** Filtering distributes over concatenation: rows keep their relative order. */
  lemma {:induction false} FilterAppend<T>(a: seq<T>, b: seq<T>, p: T -> bool)
    ensures Filter(a + b, p) == Filter(a, p) + Filter(b, p)
  {
    if b == [] {
      assert a + b == a;
    } else {
      var b', x := Init(b), Last(b);
      InitLast(b);
      assert a + b == (a + b') + [x];
      var tail := if p(x) then [x] else [];
      calc {
        Filter(a + b, p);
        { FilterSnoc(a + b', x, p); }
        Filter(a + b', p) + tail;
        { FilterAppend(a, b', p); }
        (Filter(a, p) + Filter(b', p)) + tail;
        Filter(a, p) + (Filter(b', p) + tail);
        { FilterSnoc(b', x, p); }
        Filter(a, p) + Filter(b, p);
      }
    }
  }

  /** A filter and its complement split a sequence into two parts. */
  lemma {:induction false} FilterComplement<T>(s: seq<T>, p: T -> bool, q: T -> bool)
    requires forall x :: q(x) == !p(x)
    ensures multiset(Filter(s, p)) + multiset(Filter(s, q)) == multiset(s)
  {
    if s != [] {
      InitLast(s);
      FilterComplement(Init(s), p, q);
      FilterSnoc(Init(s), Last(s), p);
      FilterSnoc(Init(s), Last(s), q);
    }
  }

  lemma {:induction false} FilterExt<T>(s: seq<T>, p: T -> bool, q: T -> bool)
    requires forall x :: p(x) == q(x)
    ensures Filter(s, p) == Filter(s, q)
  {
    if s != [] {
      InitLast(s);
      FilterExt(Init(s), p, q);
      FilterSnoc(Init(s), Last(s), p);
      FilterSnoc(Init(s), Last(s), q);
    }
  }

  /** A weaker condition keeps at least as many elements. */
  lemma {:induction false} FilterMonotone<T>(s: seq<T>, p: T -> bool, q: T -> bool)
    requires forall x :: p(x) ==> q(x)
    ensures |Filter(s, p)| <= |Filter(s, q)|
  {
    if s != [] {
      InitLast(s);
      FilterMonotone(Init(s), p, q);
      FilterSnoc(Init(s), Last(s), p);
      FilterSnoc(Init(s), Last(s), q);
    }
  }

  /** Exactly one position of `s` satisfies `p`. */
  ghost predicate ExactlyOne<T>(s: seq<T>, p: T -> bool) {
    exists i :: 0 <= i < |s| && p(s[i]) && forall j :: 0 <= j < |s| && p(s[j]) ==> j == i
  }

  lemma FilterEmptyIff<T>(s: seq<T>, p: T -> bool)
    ensures Filter(s, p) == [] <==> forall i :: 0 <= i < |s| ==> !p(s[i])
  {
    var r := Filter(s, p);
    if r != [] {
      assert r[0] in r;
    }
    if exists i :: 0 <= i < |s| && p(s[i]) {
      var i :| 0 <= i < |s| && p(s[i]);
      assert s[i] in r;
    }
  }

  lemma FilterOfExactlyOne<T>(s: seq<T>, p: T -> bool, i: int)
    requires 0 <= i < |s| && p(s[i])
    requires forall j :: 0 <= j < |s| && p(s[j]) ==> j == i
    ensures Filter(s, p) == [s[i]]
  {
    var lo, hi := s[..i], s[i + 1..];
    assert s == (lo + [s[i]]) + hi;
    FilterAppend(lo + [s[i]], hi, p);
    FilterSnoc(lo, s[i], p);
    forall j | 0 <= j < |lo| ensures !p(lo[j]) {
      assert lo[j] == s[j];
    }
    forall j | 0 <= j < |hi| ensures !p(hi[j]) {
      assert hi[j] == s[i + 1 + j];
    }
    FilterEmptyIff(lo, p);
    FilterEmptyIff(hi, p);
  }

  lemma FilterKeepsTwo<T>(s: seq<T>, p: T -> bool, lo: int, hi: int)
    requires 0 <= lo < hi < |s| && p(s[lo]) && p(s[hi])
    ensures |Filter(s, p)| >= 2
  {
    assert s == s[..hi] + s[hi..];
    FilterAppend(s[..hi], s[hi..], p);
    assert s[..hi][lo] == s[lo];
    assert s[hi..][0] == s[hi];
    assert s[lo] in Filter(s[..hi], p);
    assert s[hi] in Filter(s[hi..], p);
  }

  lemma FilterSingletonOnly<T>(s: seq<T>, p: T -> bool)
    requires |Filter(s, p)| == 1
    ensures ExactlyOne(s, p)
  {
    var r := Filter(s, p);
    assert r[0] in s && p(r[0]);
    var i :| 0 <= i < |s| && s[i] == r[0];
    forall j | 0 <= j < |s| && p(s[j]) ensures j == i {
      if j < i {
        FilterKeepsTwo(s, p, j, i);
      } else if i < j {
        FilterKeepsTwo(s, p, i, j);
      }
    }
  }

  /** A filter keeps a single element exactly when a single position matches. */
  lemma FilterSingletonIff<T>(s: seq<T>, p: T -> bool)
    ensures |Filter(s, p)| == 1 <==> ExactlyOne(s, p)
  {
    if ExactlyOne(s, p) {
      var i :| 0 <= i < |s| && p(s[i]) && forall j :: 0 <= j < |s| && p(s[j]) ==> j == i;
      FilterOfExactlyOne(s, p, i);
    }
    if |Filter(s, p)| == 1 {
      FilterSingletonOnly(s, p);
    }
  }

  /** The first element satisfying `p`, if any. */
  function FindFirst<T>(s: seq<T>, p: T -> bool): (r: Option<T>)
    ensures r.Some? ==> r.value in s && p(r.value)
    ensures r.None? <==> forall x :: x in s ==> !p(x)
  {
    if s == [] then None
    else if p(s[0]) then Some(s[0])
    else FindFirst(s[1..], p)
  }

  function Map<T, U>(s: seq<T>, f: T -> U): (r: seq<U>)
    ensures |r| == |s| && forall i :: 0 <= i < |s| ==> r[i] == f(s[i])
  {
    seq(|s|, i requires 0 <= i < |s| => f(s[i]))
  }

  ghost predicate NoDup<T>(s: seq<T>) {
    forall i, j :: 0 <= i < j < |s| ==> s[i] != s[j]
  }

  /** The distinct elements of `s`, each at the place of its first occurrence
      (what PHP's array_unique keeps). */
  function Dedup<T(==)>(s: seq<T>): (r: seq<T>)
    ensures forall x :: x in r ==> x in s
    ensures forall x :: x in s ==> x in r
    ensures NoDup(r)
  {
    if s == [] then []
    else
      InitLast(s);
      var d := Dedup(Init(s));
      if Last(s) in d then d else d + [Last(s)]
  }

  lemma DedupSnoc<T>(s: seq<T>, x: T)
    ensures Dedup(s + [x]) == if x in Dedup(s) then Dedup(s) else Dedup(s) + [x]
  {
    assert Init(s + [x]) == s;
  }

  /** A duplicate-free sequence is its own dedup. */
  lemma {:induction false} DedupOfDistinct<T>(s: seq<T>)
    requires NoDup(s)
    ensures Dedup(s) == s
  {
    if s != [] {
      InitLast(s);
      assert NoDup(Init(s));
      DedupOfDistinct(Init(s));
      assert Last(s) !in Init(s);
    }
  }

  /** Deduplicating a longer sequence only appends: what was first stays first. */
  lemma {:induction false} DedupPrefix<T>(a: seq<T>, b: seq<T>)
    ensures Dedup(a) <= Dedup(a + b)
  {
    if b == [] {
      assert a + b == a;
    } else {
      var b', x := Init(b), Last(b);
      InitLast(b);
      assert a + b == (a + b') + [x];
      DedupPrefix(a, b');
      DedupSnoc(a + b', x);
      var d, e := Dedup(a), Dedup(a + b');
      assert e <= Dedup(a + b);
      assert Dedup(a + b)[..|d|] == e[..|d|] == d;
    }
  }

  lemma DedupHead<T>(s: seq<T>)
    requires s != []
    ensures Dedup(s) != [] && Dedup(s)[0] == s[0]
  {
    DedupPrefix([s[0]], s[1..]);
    assert [s[0]] + s[1..] == s;
    assert Dedup([s[0]]) == [s[0]] by {
      assert Init([s[0]]) == [];
    }
  }

  /** The distinct keys of `s`, in order of first appearance. */
  function Keys<T, K(==)>(s: seq<T>, key: T -> K): (r: seq<K>)
    ensures NoDup(r)
    ensures forall i :: 0 <= i < |s| ==> key(s[i]) in r
    ensures forall k :: k in r ==> exists i :: 0 <= i < |s| && key(s[i]) == k
  {
    var m := Map(s, key);
    assert forall i :: 0 <= i < |s| ==> m[i] == key(s[i]);
    Dedup(m)
  }

  lemma KeysSnoc<T, K>(s: seq<T>, x: T, key: T -> K)
    ensures Keys(s + [x], key) == if key(x) in Keys(s, key) then Keys(s, key) else Keys(s, key) + [key(x)]
  {
    assert Map(s + [x], key) == Map(s, key) + [key(x)];
    DedupSnoc(Map(s, key), key(x));
  }

  function HasKey<T, K(==)>(key: T -> K, k: K): T -> bool {
    (x: T) => key(x) == k
  }

  /** The elements of `s` whose key is `k`, in order. */
  function Bucket<T, K(==)>(s: seq<T>, key: T -> K, k: K): (r: seq<T>)
    ensures forall x :: x in r ==> x in s && key(x) == k
    ensures forall x :: x in s && key(x) == k ==> x in r
  {
    Filter(s, HasKey(key, k))
  }

  /** A key has a non-empty bucket exactly when some element carries it. */
  lemma BucketNonEmptyIff<T, K>(s: seq<T>, key: T -> K, k: K)
    ensures Bucket(s, key, k) != [] <==> k in Keys(s, key)
  {
    var b := Bucket(s, key, k);
    if k in Keys(s, key) {
      var j :| 0 <= j < |s| && key(s[j]) == k;
      assert s[j] in b;
    }
    if b != [] {
      assert b[0] in b;
      var j :| 0 <= j < |s| && s[j] == b[0];
      assert key(s[j]) in Keys(s, key);
    }
  }

  /** One more element joins the end of its own key's bucket only. */
  lemma BucketSnoc<T, K>(s: seq<T>, x: T, key: T -> K, k: K)
    ensures Bucket(s + [x], key, k) == Bucket(s, key, k) + (if key(x) == k then [x] else [])
  {
    FilterSnoc(s, x, HasKey(key, k));
  }

  /** The buckets of the keys `ks`, one after the other. */
  function Flatten<T, K(==)>(ks: seq<K>, s: seq<T>, key: T -> K): seq<T> {
    if ks == [] then [] else Flatten(Init(ks), s, key) + Bucket(s, key, Last(ks))
  }

  lemma {:induction false} FlattenOfEmpty<T, K>(ks: seq<K>, key: T -> K)
    ensures Flatten(ks, [], key) == []
  {
    if ks != [] {
      FlattenOfEmpty(Init(ks), key);
    }
  }

  lemma {:induction false} FlattenSnoc<T, K>(ks: seq<K>, s: seq<T>, x: T, key: T -> K)
    requires NoDup(ks)
    ensures multiset(Flatten(ks, s + [x], key))
         == multiset(Flatten(ks, s, key)) + (if key(x) in ks then multiset{x} else multiset{})
  {
    if ks != [] {
      InitLast(ks);
      assert NoDup(Init(ks));
      FlattenSnoc(Init(ks), s, x, key);
      FilterSnoc(s, x, HasKey(key, Last(ks)));
      assert key(x) in ks <==> key(x) in Init(ks) || key(x) == Last(ks);
      assert key(x) == Last(ks) ==> key(x) !in Init(ks);
    }
  }

  /** When the keys `ks` are distinct and cover every element, the buckets
      together hold each element of `s` exactly once. */
  lemma {:induction false} FlattenPermutation<T, K>(ks: seq<K>, s: seq<T>, key: T -> K)
    requires NoDup(ks)
    requires forall i :: 0 <= i < |s| ==> key(s[i]) in ks
    ensures multiset(Flatten(ks, s, key)) == multiset(s)
  {
    if s == [] {
      FlattenOfEmpty(ks, key);
    } else {
      InitLast(s);
      forall i | 0 <= i < |Init(s)| ensures key(Init(s)[i]) in ks {
        assert Init(s)[i] == s[i];
      }
      FlattenPermutation(ks, Init(s), key);
      FlattenSnoc(ks, Init(s), Last(s), key);
    }
  }

  /** The sum of `w` over the elements of `s`. */
  function Weight<T>(s: seq<T>, w: T -> int): int {
    if s == [] then 0 else Weight(Init(s), w) + w(Last(s))
  }

  lemma {:induction false} WeightAppend<T>(a: seq<T>, b: seq<T>, w: T -> int)
    ensures Weight(a + b, w) == Weight(a, w) + Weight(b, w)
  {
    if b == [] {
      assert a + b == a;
    } else {
      InitLast(b);
      WeightAppend(a, Init(b), w);
      assert Init(a + b) == a + Init(b);
      assert Last(a + b) == Last(b);
    }
  }

  /** A sum does not depend on the order of the summands. */
  lemma {:induction false} WeightPermutation<T>(a: seq<T>, b: seq<T>, w: T -> int)
    requires multiset(a) == multiset(b)
    ensures Weight(a, w) == Weight(b, w)
    decreases |a|
  {
    if a == [] {
      assert |b| == |multiset(b)| == 0;
    } else {
      InitLast(a);
      var x := Last(a);
      assert x in multiset(b);
      var j :| 0 <= j < |b| && b[j] == x;
      var rest := b[..j] + b[j + 1..];
      assert b == b[..j] + [x] + b[j + 1..];
      assert multiset(b) == multiset(b[..j]) + multiset{x} + multiset(b[j + 1..]);
      assert multiset(rest) == multiset(b[..j]) + multiset(b[j + 1..]);
      assert multiset(a) == multiset(Init(a)) + multiset{x};
      assert multiset(Init(a)) == multiset(a) - multiset{x};
      assert multiset(rest) == multiset(b) - multiset{x};
      WeightPermutation(Init(a), rest, w);
      WeightAppend(b[..j], b[j + 1..], w);
      WeightAppend(b[..j] + [x], b[j + 1..], w);
      WeightAppend(b[..j], [x], w);
      assert Weight([x], w) == w(x) by {
        assert Init([x]) == [];
      }
    }
  }
}
