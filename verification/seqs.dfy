/** The array operations the pages chain together: `filter`, `find`,
    `flatMap`, `Array.from(new Set(...))` and a stable `sort` by a numeric
    key, newest (largest key) first. */
module Seqs {
  import opened Wrappers

  /** `a` can be obtained from `b` by deleting elements: `a` keeps the
      relative order of the elements it takes from `b`. */
  predicate IsSubsequence<T(==,!new)>(a: seq<T>, b: seq<T>)
    decreases |b|
  {
    |a| == 0 || (|b| > 0 && ((a[0] == b[0] && IsSubsequence(a[1..], b[1..])) || IsSubsequence(a, b[1..])))
  }

  /** `xs.filter(p)`: the elements satisfying `p`, each as often as in `xs`,
      in their original order. */
  function Filter<T(==,!new)>(xs: seq<T>, p: T -> bool): (r: seq<T>)
    ensures |r| <= |xs|
    ensures forall x :: x in r <==> x in xs && p(x)
    ensures forall x :: multiset(r)[x] == if p(x) then multiset(xs)[x] else 0
    ensures IsSubsequence(r, xs)
  {
    if |xs| == 0 then []
    else
      var t := Filter(xs[1..], p);
      assert xs == [xs[0]] + xs[1..];
      if p(xs[0]) then
        var r := [xs[0]] + t;
        assert r[1..] == t;
        r
      else t
  }

  /** A filter that every element passes leaves the sequence as it is. */
  lemma {:induction false} FilterAll<T(!new)>(xs: seq<T>, p: T -> bool)
    requires forall k :: 0 <= k < |xs| ==> p(xs[k])
    ensures Filter(xs, p) == xs
  {
    if |xs| > 0 {
      FilterAll(xs[1..], p);
    }
  }

  /** The index of the first element satisfying `p` (`findIndex`), if any. */
  function FindIndex<T>(xs: seq<T>, p: T -> bool): (r: Option<nat>)
    ensures r.Some? ==> r.value < |xs| && p(xs[r.value])
    ensures r.Some? ==> forall k :: 0 <= k < r.value ==> !p(xs[k])
    ensures r.None? <==> forall k :: 0 <= k < |xs| ==> !p(xs[k])
  {
    if |xs| == 0 then None
    else if p(xs[0]) then Some(0)
    else
      match FindIndex(xs[1..], p)
      case None => None
      case Some(i) => Some(i + 1)
  }

  /** `xs.find(p)`: the first element satisfying `p`, if any. */
  function Find<T>(xs: seq<T>, p: T -> bool): (r: Option<T>)
    ensures r.Some? ==> exists k :: 0 <= k < |xs| && xs[k] == r.value && p(r.value) && forall j :: 0 <= j < k ==> !p(xs[j])
    ensures r.None? <==> forall k :: 0 <= k < |xs| ==> !p(xs[k])
  {
    match FindIndex(xs, p)
    case None => None
    case Some(i) => Some(xs[i])
  }

  /** `xs.map(f)`. */
  function Map<A, B>(xs: seq<A>, f: A -> B): (r: seq<B>)
    ensures |r| == |xs| && forall i :: 0 <= i < |xs| ==> r[i] == f(xs[i])
  {
    seq(|xs|, i requires 0 <= i < |xs| => f(xs[i]))
  }

  /** The concatenation of all inner sequences (`flatMap` after `map`). */
  function Flatten<T(!new)>(xss: seq<seq<T>>): (r: seq<T>)
    ensures forall x :: x in r <==> exists i :: 0 <= i < |xss| && x in xss[i]
  {
    if |xss| == 0 then []
    else
      var t := Flatten(xss[1..]);
      assert forall i :: 1 <= i < |xss| ==> xss[i] == xss[1..][i - 1];
      xss[0] + t
  }

  predicate NoDuplicates<T(==,!new)>(xs: seq<T>) {
    forall i, j :: 0 <= i < j < |xs| ==> xs[i] != xs[j]
  }

  /** The position of the first occurrence of `x` in `xs`. */
  function FirstPos<T(==,!new)>(xs: seq<T>, x: T): (r: nat)
    requires x in xs
    ensures r < |xs| && xs[r] == x
    ensures forall k :: 0 <= k < r ==> xs[k] != x
  {
    if xs[0] == x then 0 else 1 + FirstPos(xs[1..], x)
  }

  /** The first position of an element is unaffected by appending. */
  lemma {:induction false} FirstPosPrefix<T(!new)>(xs: seq<T>, x: T, n: nat)
    requires n <= |xs| && x in xs[..n]
    ensures FirstPos(xs, x) == FirstPos(xs[..n], x)
  {
    var i := FirstPos(xs[..n], x);
    assert xs[..n][i] == xs[i];
    forall k | 0 <= k < i
      ensures xs[k] != x
    {
      assert xs[..n][k] == xs[k];
    }
  }

  /** `Array.from(new Set(xs))`: every value of `xs` exactly once, in the
      order of first occurrence. */
  function Distinct<T(==,!new)>(xs: seq<T>): (r: seq<T>)
    ensures forall x :: x in r <==> x in xs
    ensures NoDuplicates(r)
    ensures forall i, j :: 0 <= i < j < |r| ==> FirstPos(xs, r[i]) < FirstPos(xs, r[j])
    decreases |xs|
  {
    if |xs| == 0 then []
    else
      var init := xs[..|xs| - 1];
      var d := Distinct(init);
      var x := xs[|xs| - 1];
      assert xs == init + [x];
      assert forall y :: y in d ==> FirstPos(xs, y) == FirstPos(init, y) by {
        forall y | y in d ensures FirstPos(xs, y) == FirstPos(init, y) {
          FirstPosPrefix(xs, y, |xs| - 1);
        }
      }
      if x in d then d
      else
        assert FirstPos(xs, x) == |xs| - 1;
        d + [x]
  }

  /** The elements of `xs` whose key is exactly `k`, in order: two
      sequences agree on every such selection iff ties keep their order. */
  function WithKey<T>(xs: seq<T>, key: T -> int, k: int): seq<T>
  {
    if |xs| == 0 then []
    else if key(xs[0]) == k then [xs[0]] + WithKey(xs[1..], key, k)
    else WithKey(xs[1..], key, k)
  }

  /** Non-increasing by `key`: newest first when the key is a timestamp. */
  predicate SortedDesc<T>(xs: seq<T>, key: T -> int) {
    forall i, j :: 0 <= i < j < |xs| ==> key(xs[i]) >= key(xs[j])
  }

  /** In a sequence sorted by descending key, nothing after position `n`
      has a larger key than anything before it. */
  lemma PrefixFirst<T>(xs: seq<T>, key: T -> int, n: nat, x: T, y: T)
    requires SortedDesc(xs, key) && n <= |xs|
    requires x in xs[..n] && y in xs[n..]
    ensures key(x) >= key(y)
  {
    var i :| 0 <= i < n && xs[..n][i] == x;
    var j :| 0 <= j < |xs| - n && xs[n..][j] == y;
    assert xs[i] == x && xs[n + j] == y;
  }

  /** Equal neighbours all the way from `a` to `b` make the ends equal. */
  lemma {:induction false} Chain<T>(f: nat -> T, a: nat, b: nat)
    requires a <= b
    requires forall k: nat :: a <= k < b ==> f(k) == f(k + 1)
    ensures f(a) == f(b)
    decreases b - a
  {
    if a < b {
      Chain(f, a + 1, b);
    }
  }

  /** Inserts `x` in front of the first element whose key is not larger. */
  function Insert<T>(x: T, ys: seq<T>, key: T -> int): seq<T>
  {
    if |ys| == 0 || key(ys[0]) <= key(x) then [x] + ys
    else [ys[0]] + Insert(x, ys[1..], key)
  }

  lemma {:induction false} InsertPerm<T>(x: T, ys: seq<T>, key: T -> int)
    ensures multiset(Insert(x, ys, key)) == multiset(ys) + multiset{x}
  {
    if !(|ys| == 0 || key(ys[0]) <= key(x)) {
      InsertPerm(x, ys[1..], key);
      assert ys == [ys[0]] + ys[1..];
    }
  }

  lemma {:induction false} InsertSorted<T>(x: T, ys: seq<T>, key: T -> int)
    requires SortedDesc(ys, key)
    ensures SortedDesc(Insert(x, ys, key), key)
  {
    if !(|ys| == 0 || key(ys[0]) <= key(x)) {
      var t := Insert(x, ys[1..], key);
      InsertSorted(x, ys[1..], key);
      InsertPerm(x, ys[1..], key);
      forall j | 0 <= j < |t|
        ensures key(ys[0]) >= key(t[j])
      {
        assert t[j] in multiset(ys[1..]) + multiset{x};
      }
    }
  }

  lemma {:induction false} InsertWithKey<T>(x: T, ys: seq<T>, key: T -> int, k: int)
    ensures WithKey(Insert(x, ys, key), key, k)
            == if key(x) == k then [x] + WithKey(ys, key, k) else WithKey(ys, key, k)
  {
    if |ys| == 0 || key(ys[0]) <= key(x) {
      assert ([x] + ys)[1..] == ys;
    } else {
      InsertWithKey(x, ys[1..], key, k);
      assert ([ys[0]] + Insert(x, ys[1..], key))[1..] == Insert(x, ys[1..], key);
    }
  }

  /** `xs.sort((a, b) => key(b) - key(a))` with a stable sort: a
      permutation of `xs`, largest key first, ties in their input order. */
  function SortDesc<T>(xs: seq<T>, key: T -> int): (r: seq<T>)
    ensures multiset(r) == multiset(xs)
    ensures SortedDesc(r, key)
    ensures forall k :: WithKey(r, key, k) == WithKey(xs, key, k)
  {
    if |xs| == 0 then []
    else
      var t := SortDesc(xs[1..], key);
      InsertPerm(xs[0], t, key);
      InsertSorted(xs[0], t, key);
      assert xs == [xs[0]] + xs[1..];
      assert forall k :: WithKey(Insert(xs[0], t, key), key, k) == WithKey(xs, key, k) by {
        forall k ensures WithKey(Insert(xs[0], t, key), key, k) == WithKey(xs, key, k) {
          InsertWithKey(xs[0], t, key, k);
        }
      }
      Insert(xs[0], t, key)
  }

  /** `xs.map(f).filter(x => x !== null)`: the present results of `f`, in
      the order of their inputs. */
  function FilterMap<A, B(==,!new)>(xs: seq<A>, f: A -> Option<B>): (r: seq<B>)
    ensures |r| <= |xs|
    ensures forall y :: y in r <==> exists i :: 0 <= i < |xs| && f(xs[i]) == Some(y)
  {
    if |xs| == 0 then []
    else
      var t := FilterMap(xs[1..], f);
      assert forall i :: 1 <= i < |xs| ==> xs[i] == xs[1..][i - 1];
      match f(xs[0])
      case None => t
      case Some(y) => [y] + t
  }

  /** `FilterMap` works input by input: the results for two inputs side by
      side are those for the first followed by those for the second. With
      `FilterMapOne` this fixes the order and the multiplicity of every
      result. */
  lemma {:induction false} FilterMapAppend<A, B(!new)>(xs: seq<A>, ys: seq<A>, f: A -> Option<B>)
    ensures FilterMap(xs + ys, f) == FilterMap(xs, f) + FilterMap(ys, f)
    decreases |xs|
  {
    if |xs| == 0 {
      assert xs + ys == ys;
    } else {
      assert (xs + ys)[0] == xs[0] && (xs + ys)[1..] == xs[1..] + ys;
      FilterMapAppend(xs[1..], ys, f);
    }
  }

  /** One input gives its result when present, and nothing otherwise. */
  lemma FilterMapOne<A, B(!new)>(x: A, f: A -> Option<B>)
    ensures FilterMap([x], f) == if f(x).Some? then [f(x).value] else []
  {
  }

  /** An input every result of which is present gives one output per
      input, in order. */
  lemma {:induction false} FilterMapAll<A, B(!new)>(xs: seq<A>, f: A -> Option<B>)
    requires forall i :: 0 <= i < |xs| ==> f(xs[i]).Some?
    ensures |FilterMap(xs, f)| == |xs|
    ensures forall i :: 0 <= i < |xs| ==> FilterMap(xs, f)[i] == f(xs[i]).value
  {
    if |xs| > 0 {
      FilterMapAll(xs[1..], f);
    }
  }

  lemma {:induction false} SubsequenceTrans<T(!new)>(a: seq<T>, b: seq<T>, c: seq<T>)
    requires IsSubsequence(a, b) && IsSubsequence(b, c)
    ensures IsSubsequence(a, c)
    decreases |c|
  {
    if |a| > 0 {
      if b[0] == c[0] && IsSubsequence(b[1..], c[1..]) {
        if a[0] == b[0] && IsSubsequence(a[1..], b[1..]) {
          SubsequenceTrans(a[1..], b[1..], c[1..]);
        } else {
          SubsequenceTrans(a, b[1..], c[1..]);
        }
      } else {
        SubsequenceTrans(a, b, c[1..]);
      }
    }
  }

  /** A prefix is a subsequence. */
  lemma {:induction false} PrefixSubsequence<T(!new)>(a: seq<T>, b: seq<T>)
    requires a <= b
    ensures IsSubsequence(a, b)
    decreases |b|
  {
    if |a| > 0 {
      PrefixSubsequence(a[1..], b[1..]);
    }
  }

  /** `xs.slice(0, n)`. */
  function Take<T>(xs: seq<T>, n: nat): (r: seq<T>)
    ensures |r| == if n < |xs| then n else |xs|
    ensures r <= xs
  {
    if n < |xs| then xs[..n] else xs
  }
}
