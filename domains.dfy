/** Domains: the values still admissible for one variable, kept (as the
    source's Domain does) as a vector of ints in no particular order, and the
    in-place sort that the value orderings use. */
module Domains {

  /** The domain after removeValueFromDomain(x) (line 66 of BTSolver.cpp):
      every copy of `x` leaves it, every other value stays, and a domain
      without `x` is returned unchanged. */
  function Remove(d: seq<int>, x: int): (r: seq<int>)
    ensures forall y :: y in r <==> y in d && y != x
    ensures |r| <= |d|
    ensures x in d ==> |r| < |d|
    ensures x !in d ==> r == d
  {
    if d == [] then []
    else if d[0] == x then Remove(d[1..], x)
    else [d[0]] + Remove(d[1..], x)
  }

  /** Removal keeps multiplicities: every value other than `x` keeps its
      number of copies, and no copy of `x` is left. */
  lemma {:induction false} RemoveMultiset(d: seq<int>, x: int)
    ensures multiset(Remove(d, x)) == multiset(d)[x := 0]
  {
    if d != [] {
      RemoveMultiset(d[1..], x);
      assert d == [d[0]] + d[1..];
    }
  }

  /** Removal keeps the order of what stays: removing from a concatenation
      removes from each part in place. */
  lemma {:induction false} RemoveConcat(a: seq<int>, b: seq<int>, x: int)
    ensures Remove(a + b, x) == Remove(a, x) + Remove(b, x)
  {
    if a != [] {
      assert (a + b)[1..] == a[1..] + b;
      RemoveConcat(a[1..], b, x);
    } else {
      assert a + b == b;
    }
  }

  /** Keys never decrease along the sequence. */
  predicate Ascending(s: seq<int>) {
    forall i, j :: 0 <= i < j < |s| ==> s[i] <= s[j]
  }

  /** The first element of an ascending sequence is its least element. */
  lemma HeadIsLeast(s: seq<int>, x: int)
    requires Ascending(s) && x in s
    ensures s[0] <= x
  {
    var i :| 0 <= i < |s| && s[i] == x;
  }

  /** Dropping the head of a sequence removes one copy of it from its multiset. */
  lemma TailMultiset(s: seq<int>)
    requires s != []
    ensures multiset(s[1..]) == multiset(s) - multiset{s[0]}
  {
    assert s == [s[0]] + s[1..];
  }

  /** Two ascending arrangements of the same values are the same sequence:
      "sorted permutation of d" determines the result uniquely. */
  lemma {:induction false} SortedPermutationUnique(s: seq<int>, t: seq<int>)
    requires Ascending(s) && Ascending(t)
    requires multiset(s) == multiset(t)
    ensures s == t
    decreases |s|
  {
    assert |t| == |s| by {
      assert |t| == |multiset(t)| && |s| == |multiset(s)|;
    }
    if s != [] {
      assert s[0] == t[0] by {
        assert s[0] in multiset(t) && t[0] in multiset(s);
        HeadIsLeast(t, s[0]);
        HeadIsLeast(s, t[0]);
      }
      assert multiset(s[1..]) == multiset(t[1..]) by {
        TailMultiset(s);
        TailMultiset(t);
      }
      SortedPermutationUnique(s[1..], t[1..]);
      assert s == [s[0]] + s[1..] && t == [t[0]] + t[1..];
    }
  }

  /** Exchanges positions `j - 1` and `j` of both parallel arrays. */
  method SwapDown(vals: array<int>, keys: array<int>, j: int, ghost key: int -> int)
    requires vals != keys && vals.Length == keys.Length && 0 < j < vals.Length
    requires forall k :: 0 <= k < vals.Length ==> keys[k] == key(vals[k])
    modifies vals, keys
    ensures multiset(vals[..]) == old(multiset(vals[..]))
    ensures forall k :: 0 <= k < vals.Length ==> keys[k] == key(vals[k])
    ensures keys[j - 1] == old(keys[j]) && keys[j] == old(keys[j - 1])
    ensures forall k :: 0 <= k < keys.Length && k != j - 1 && k != j ==> keys[k] == old(keys[k])
  {
    vals[j - 1], vals[j] := vals[j], vals[j - 1];
    keys[j - 1], keys[j] := keys[j], keys[j - 1];
  }

  /** Moves the element at `i` down into the ascending prefix `keys[..i]`,
      so that `keys[..i + 1]` is ascending. */
  method InsertDown(vals: array<int>, keys: array<int>, i: int, ghost key: int -> int)
    requires vals != keys && vals.Length == keys.Length && 0 <= i < vals.Length
    requires forall k :: 0 <= k < vals.Length ==> keys[k] == key(vals[k])
    requires forall a, b :: 0 <= a < b < i ==> keys[a] <= keys[b]
    modifies vals, keys
    ensures multiset(vals[..]) == old(multiset(vals[..]))
    ensures forall k :: 0 <= k < vals.Length ==> keys[k] == key(vals[k])
    ensures forall a, b :: 0 <= a < b <= i ==> keys[a] <= keys[b]
  {
    var j := i;
    while 0 < j && keys[j] < keys[j - 1]
      invariant 0 <= j <= i
      invariant forall a, b :: 0 <= a < b <= i && a != j && b != j ==> keys[a] <= keys[b]
      invariant forall b :: j < b <= i ==> keys[j] <= keys[b]
      invariant forall k :: 0 <= k < vals.Length ==> keys[k] == key(vals[k])
      invariant multiset(vals[..]) == old(multiset(vals[..]))
    {
      SwapDown(vals, keys, j, key);
      j := j - 1;
    }
  }

  /** Sorts `vals` in place so that the parallel `keys` never decrease,
      moving each key with its value (the sort the value orderings run). */
  method SortByKey(vals: array<int>, keys: array<int>, ghost key: int -> int)
    requires vals != keys && vals.Length == keys.Length
    requires forall k :: 0 <= k < vals.Length ==> keys[k] == key(vals[k])
    modifies vals, keys
    ensures multiset(vals[..]) == old(multiset(vals[..]))
    ensures forall k :: 0 <= k < vals.Length ==> keys[k] == key(vals[k])
    ensures Ascending(keys[..])
  {
    var i := 0;
    while i < vals.Length
      invariant 0 <= i <= vals.Length
      invariant forall a, b :: 0 <= a < b < i ==> keys[a] <= keys[b]
      invariant forall k :: 0 <= k < vals.Length ==> keys[k] == key(vals[k])
      invariant multiset(vals[..]) == old(multiset(vals[..]))
    {
      InsertDown(vals, keys, i, key);
      i := i + 1;
    }
  }
}
