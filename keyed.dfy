/**
  Collections of records identified by an integer key: ascending order on the key,
  filtering, and the "largest key plus one" allocation that both stores use for new
  note ids.
 */
module Keyed {
  import opened Wrappers

  /** The keys of `s` never decrease from left to right. */
  predicate SortedBy<T>(s: seq<T>, key: T -> int) {
    forall i, j :: 0 <= i < j < |s| ==> key(s[i]) <= key(s[j])
  }

  /** No two elements of `s` share a key (what a unique index guarantees). */
  predicate DistinctKeys<T>(s: seq<T>, key: T -> int) {
    forall i, j :: 0 <= i < |s| && 0 <= j < |s| && i != j ==> key(s[i]) != key(s[j])
  }

  /** `x` placed into `s` before the first element with a larger or equal key. */
  function Insert<T>(x: T, s: seq<T>, key: T -> int): seq<T> {
    if s == [] || key(x) <= key(s[0]) then [x] + s
    else [s[0]] + Insert(x, s[1..], key)
  }

  /** Inserting adds exactly `x`, and the result starts with `x` or with the old first element. */
  lemma {:induction false} InsertAdds<T>(x: T, s: seq<T>, key: T -> int)
    ensures multiset(Insert(x, s, key)) == multiset(s) + multiset{x}
    ensures Insert(x, s, key)[0] == x || (s != [] && Insert(x, s, key)[0] == s[0])
  {
    if s != [] && key(x) > key(s[0]) {
      InsertAdds(x, s[1..], key);
      assert s == [s[0]] + s[1..];
    }
  }

  /** An element no larger than the head of a sorted sequence can go in front of it. */
  lemma ConsSorted<T>(a: T, t: seq<T>, key: T -> int)
    requires SortedBy(t, key)
    requires t == [] || key(a) <= key(t[0])
    ensures SortedBy([a] + t, key)
  {
    var r := [a] + t;
    forall i, j | 0 <= i < j < |r| ensures key(r[i]) <= key(r[j]) {
      assert r[j] == t[j - 1];
      if i > 0 {
        assert r[i] == t[i - 1];
      } else if j > 1 {
        assert key(t[0]) <= key(t[j - 1]);
      }
    }
  }

  /** Inserting into a sorted sequence keeps it sorted. */
  lemma {:induction false} InsertSorted<T>(x: T, s: seq<T>, key: T -> int)
    requires SortedBy(s, key)
    ensures SortedBy(Insert(x, s, key), key)
  {
    if s == [] || key(x) <= key(s[0]) {
      ConsSorted(x, s, key);
    } else {
      var rest := Insert(x, s[1..], key);
      InsertSorted(x, s[1..], key);
      InsertAdds(x, s[1..], key);
      assert key(s[0]) <= key(rest[0]);
      ConsSorted(s[0], rest, key);
    }
  }

  /** The elements of `s` in ascending key order (an insertion sort). */
  function SortBy<T>(s: seq<T>, key: T -> int): (r: seq<T>)
    ensures SortedBy(r, key)
    ensures multiset(r) == multiset(s)
    ensures |r| == |s|
  {
    if s == [] then []
    else
      assert s == [s[0]] + s[1..];
      var rest := SortBy(s[1..], key);
      InsertSorted(s[0], rest, key);
      InsertAdds(s[0], rest, key);
      Insert(s[0], rest, key)
  }

  /** The elements of `s` that satisfy `p`, in their original order. */
  function Filter<T(!new)>(s: seq<T>, p: T -> bool): (r: seq<T>)
    ensures forall x :: multiset(r)[x] == if p(x) then multiset(s)[x] else 0
    ensures forall i :: 0 <= i < |r| ==> p(r[i])
  {
    if s == [] then []
    else
      assert s == [s[0]] + s[1..];
      if p(s[0]) then [s[0]] + Filter(s[1..], p) else Filter(s[1..], p)
  }

  /** How many elements of `s` satisfy `p`. */
  function Count<T>(s: seq<T>, p: T -> bool): (c: nat)
    ensures c <= |s|
    ensures c == 0 <==> forall k :: 0 <= k < |s| ==> !p(s[k])
  {
    if s == [] then 0
    else Count(s[..|s| - 1], p) + (if p(s[|s| - 1]) then 1 else 0)
  }

  /** Extending a prefix by one element adds one to the count exactly when that element satisfies `p`. */
  lemma CountPrefixStep<T>(s: seq<T>, p: T -> bool, i: nat)
    requires i < |s|
    ensures Count(s[..i + 1], p) == Count(s[..i], p) + (if p(s[i]) then 1 else 0)
  {
    assert s[..i + 1][..i] == s[..i];
  }

  /**
    `now` is `before` with its first `i` elements replaced by their images under
    `f` and the others untouched: the state of an in-place rewrite after `i` steps.
   */
  ghost predicate RewrittenUpTo<T>(before: seq<T>, now: seq<T>, f: T -> T, i: nat) {
    && i <= |before| == |now|
    && (forall k :: 0 <= k < i ==> now[k] == f(before[k]))
    && (forall k :: i <= k < |now| ==> now[k] == before[k])
  }

  /** Rewriting the next element advances an in-place rewrite by one step. */
  lemma RewriteNext<T>(before: seq<T>, now: seq<T>, f: T -> T, i: nat)
    requires RewrittenUpTo(before, now, f, i) && i < |now|
    ensures RewrittenUpTo(before, now[i := f(now[i])], f, i + 1)
  {
    assert now[i] == before[i];
  }

  /** `out` holds the images under `f` of the first `|out|` elements of `src`: a map built by appending. */
  ghost predicate MappedPrefix<T, U>(src: seq<T>, out: seq<U>, f: T -> U) {
    |out| <= |src| && forall k :: 0 <= k < |out| ==> out[k] == f(src[k])
  }

  /** Appending the image of the next element extends the mapped prefix. */
  lemma MappedPrefixNext<T, U>(src: seq<T>, out: seq<U>, f: T -> U)
    requires MappedPrefix(src, out, f) && |out| < |src|
    ensures MappedPrefix(src, out + [f(src[|out|])], f)
  {
  }

  /**
    One more than the largest key in `s`, or 1 when `s` is empty: the key a
    "find the top document, add one" allocation hands out.
   */
  function NextKey<T>(s: seq<T>, key: T -> int): (n: int)
    ensures s == [] ==> n == 1
    ensures forall i :: 0 <= i < |s| ==> key(s[i]) < n
    ensures s != [] ==> exists i :: 0 <= i < |s| && key(s[i]) == n - 1
  {
    if s == [] then 1
    else
      var rest := NextKey(s[1..], key);
      if s[1..] == [] || key(s[0]) >= rest then
        key(s[0]) + 1
      else
        assert exists i :: 0 <= i < |s[1..]| && key(s[1..][i]) == rest - 1;
        var i :| 0 <= i < |s[1..]| && key(s[1..][i]) == rest - 1;
        assert key(s[i + 1]) == rest - 1;
        rest
  }

  /** Appending an element whose key is the allocated one raises the next key by exactly one. */
  lemma {:induction false} NextKeyAfterAppend<T>(s: seq<T>, x: T, key: T -> int)
    requires key(x) == NextKey(s, key)
    ensures NextKey(s + [x], key) == key(x) + 1
  {
    var t := s + [x];
    var n := NextKey(t, key);
    assert key(t[|s|]) == key(x);
    var i :| 0 <= i < |t| && key(t[i]) == n - 1;
  }

  /** An element appended with the allocated key keeps the keys distinct. */
  lemma AppendKeepsKeysDistinct<T>(s: seq<T>, x: T, key: T -> int)
    requires DistinctKeys(s, key)
    requires key(x) == NextKey(s, key)
    ensures DistinctKeys(s + [x], key)
  {
    var t := s + [x];
    forall i | 0 <= i < |s| ensures key(t[i]) != key(x) {
      assert t[i] == s[i];
    }
  }

  /** The position of the first element with key `k` (what a lookup by key finds), or None. */
  function IndexOfKey<T>(s: seq<T>, key: T -> int, k: int): (r: Option<nat>)
    ensures r.Some? ==> r.value < |s| && key(s[r.value]) == k
    ensures r.Some? ==> forall j :: 0 <= j < r.value ==> key(s[j]) != k
    ensures r.None? <==> forall j :: 0 <= j < |s| ==> key(s[j]) != k
  {
    if s == [] then None
    else if key(s[0]) == k then Some(0)
    else match IndexOfKey(s[1..], key, k)
      case None => None
      case Some(j) => Some(j + 1)
  }
}
