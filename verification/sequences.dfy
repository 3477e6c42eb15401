/** The JavaScript array primitives the resolvers are built from, on immutable
    sequences: `find`, `filter`, `indexOf` and `splice`, together with the facts
    about them that the store's properties rest on. */
module Sequences {
  import opened Wrappers

  /** `i` is the smallest index whose element satisfies `p`. */
  predicate IsFirstMatch<T>(s: seq<T>, p: T -> bool, i: int)
  {
    0 <= i < |s| && p(s[i]) && forall j :: 0 <= j < i ==> !p(s[j])
  }

  /** No element of `s` satisfies `p`. */
  predicate NoMatch<T>(s: seq<T>, p: T -> bool)
  {
    forall j :: 0 <= j < |s| ==> !p(s[j])
  }

  /** The index that `Array.prototype.find` stops at: the first element
      satisfying `p`, scanning from the front, or `None` when there is none. */
  function FirstIndex<T>(s: seq<T>, p: T -> bool): (r: Option<nat>)
    ensures r.Some? ==> IsFirstMatch(s, p, r.value)
    ensures r.None? <==> NoMatch(s, p)
  {
    if |s| == 0 then None
    else if p(s[0]) then Some(0)
    else
      match FirstIndex(s[1..], p)
      case None => None
      case Some(i) => Some(i + 1)
  }

  /** There is at most one first match. */
  lemma FirstMatchUnique<T>(s: seq<T>, p: T -> bool, i: int, k: int)
    requires IsFirstMatch(s, p, i) && IsFirstMatch(s, p, k)
    ensures i == k
  {
  }

  /** `Array.prototype.find`: the first element satisfying `p`, or `undefined`. */
  function Find<T>(s: seq<T>, p: T -> bool): (r: Option<T>)
    ensures r.None? <==> NoMatch(s, p)
    ensures r.Some? ==> exists i :: IsFirstMatch(s, p, i) && s[i] == r.value
  {
    match FirstIndex(s, p)
    case None => None
    case Some(i) => Some(s[i])
  }

  /** `Find` returns the element at `FirstIndex`. */
  lemma FindAtFirstIndex<T>(s: seq<T>, p: T -> bool, i: int)
    requires IsFirstMatch(s, p, i)
    ensures FirstIndex(s, p) == Some(i)
    ensures Find(s, p) == Some(s[i])
  {
    FirstMatchUnique(s, p, i, FirstIndex(s, p).value);
  }

  /** `Array.prototype.filter`: the elements satisfying `p`, in order. */
  function Filter<T>(s: seq<T>, p: T -> bool): (r: seq<T>)
    ensures |r| <= |s|
    ensures forall k :: 0 <= k < |r| ==> p(r[k]) && r[k] in s
    ensures forall k :: 0 <= k < |s| && p(s[k]) ==> s[k] in r
  {
    if |s| == 0 then []
    else
      assert s == [s[0]] + s[1..];
      if p(s[0]) then [s[0]] + Filter(s[1..], p) else Filter(s[1..], p)
  }

  /** `r` can be obtained from `s` by deleting elements, without reordering. */
  predicate IsSubsequence<T(==)>(r: seq<T>, s: seq<T>)
    decreases |s|
  {
    if |r| == 0 then true
    else if |s| == 0 then false
    else if r[0] == s[0] then IsSubsequence(r[1..], s[1..])
    else IsSubsequence(r, s[1..])
  }

  /** A filter keeps store order: its result is a subsequence of the input. */
  lemma {:induction false} FilterIsSubsequence<T>(s: seq<T>, p: T -> bool)
    ensures IsSubsequence(Filter(s, p), s)
  {
    if |s| > 0 {
      FilterIsSubsequence(s[1..], p);
      if !p(s[0]) {
        var r := Filter(s[1..], p);
        assert |r| > 0 ==> p(r[0]);
      }
    }
  }

  /** Filtering distributes over concatenation, so it preserves relative order. */
  lemma {:induction false} FilterConcat<T>(a: seq<T>, b: seq<T>, p: T -> bool)
    ensures Filter(a + b, p) == Filter(a, p) + Filter(b, p)
  {
    if |a| == 0 {
      assert a + b == b;
    } else {
      assert (a + b)[1..] == a[1..] + b;
      FilterConcat(a[1..], b, p);
    }
  }

  /** The negation of a predicate. */
  function Not<T>(p: T -> bool): T -> bool
  {
    (x: T) => !p(x)
  }

  /** A filter and the filter on the negated predicate split the input:
      together they hold every element exactly as often as the input does. */
  lemma {:induction false} FilterPartition<T>(s: seq<T>, p: T -> bool)
    ensures multiset(Filter(s, p)) + multiset(Filter(s, Not(p))) == multiset(s)
  {
    if |s| > 0 {
      FilterPartition(s[1..], p);
      assert s == [s[0]] + s[1..];
    }
  }

  /** `Array.prototype.indexOf`: the first index holding `x`, or -1. `undefined`
      (`None`) is never an element of a record array, so it yields -1. */
  function IndexOf<T(==)>(s: seq<T>, x: Option<T>): (r: int)
    ensures -1 <= r < |s|
    ensures r == -1 <==> x.None? || x.value !in s
    ensures 0 <= r ==> x == Some(s[r]) && forall j :: 0 <= j < r ==> s[j] != x.value
  {
    match x
    case None => -1
    case Some(v) =>
      match FirstIndex(s, y => y == v)
      case None => -1
      case Some(i) => i
  }

  /** The element `Find` returns is found by `indexOf` at the same index. In
      JavaScript `indexOf` compares references, and the record `find` returned
      is the very object at that index; with value equality the index is the
      same because no earlier element satisfies `p`. */
  lemma IndexOfFound<T>(s: seq<T>, p: T -> bool)
    ensures match FirstIndex(s, p)
            case None => IndexOf(s, Find(s, p)) == -1
            case Some(i) => IndexOf(s, Find(s, p)) == i
  {
    match FirstIndex(s, p)
    case None =>
    case Some(i) =>
      var k := IndexOf(s, Find(s, p));
      assert 0 <= k <= i by {
        assert s[i] in s;
      }
      assert p(s[k]);
  }

  /** The array left by `Array.prototype.splice(start, deleteCount)`: a negative
      `start` counts from the end and is clamped to 0, a `start` past the end is
      clamped to the length, and at most the elements that exist are removed. */
  function Splice<T>(s: seq<T>, start: int, deleteCount: int): (r: seq<T>)
    ensures |r| <= |s|
  {
    var len := |s|;
    var actualStart := if start < 0 then Max(len + start, 0) else Min(start, len);
    var actualDeleteCount := Min(Max(deleteCount, 0), len - actualStart);
    s[..actualStart] + s[actualStart + actualDeleteCount..]
  }

  function Min(a: int, b: int): int { if a <= b then a else b }
  function Max(a: int, b: int): int { if a <= b then b else a }

  /** `s` with the element at index `i` removed and the rest in order. */
  function RemoveAt<T>(s: seq<T>, i: nat): (r: seq<T>)
    requires i < |s|
    ensures |r| == |s| - 1
    ensures forall k :: 0 <= k < i ==> r[k] == s[k]
    ensures forall k :: i <= k < |r| ==> r[k] == s[k + 1]
  {
    s[..i] + s[i + 1..]
  }

  /** Removing one element removes exactly one occurrence of it. */
  lemma RemoveAtMultiset<T>(s: seq<T>, i: nat)
    requires i < |s|
    ensures multiset(RemoveAt(s, i)) + multiset{s[i]} == multiset(s)
  {
    assert s == s[..i] + [s[i]] + s[i + 1..];
  }

  /** `splice(i, 1)` at a valid index removes exactly that element. */
  lemma SpliceOneAt<T>(s: seq<T>, i: int)
    requires 0 <= i < |s|
    ensures Splice(s, i, 1) == RemoveAt(s, i)
  {
  }

  /** `splice(-1, 1)` removes the last element, and does nothing to an empty array. */
  lemma SpliceOneFromEnd<T>(s: seq<T>)
    ensures |s| == 0 ==> Splice(s, -1, 1) == s
    ensures |s| > 0 ==> Splice(s, -1, 1) == RemoveAt(s, |s| - 1) == s[..|s| - 1]
  {
  }

  /** Appending an element does not change an earlier first match. */
  lemma {:induction false} FirstIndexAppend<T>(s: seq<T>, x: T, p: T -> bool)
    ensures FirstIndex(s + [x], p) ==
              if FirstIndex(s, p).Some? then FirstIndex(s, p)
              else if p(x) then Some(|s|)
              else None
  {
    var t := s + [x];
    match FirstIndex(s, p)
    case Some(i) =>
      assert IsFirstMatch(t, p, i);
      FindAtFirstIndex(t, p, i);
    case None =>
      if p(x) {
        assert IsFirstMatch(t, p, |s|);
        FindAtFirstIndex(t, p, |s|);
      } else {
        assert NoMatch(t, p);
      }
  }

  /** A prefix without matches is skipped by the search. */
  lemma FindSkipsPrefix<T>(a: seq<T>, b: seq<T>, p: T -> bool)
    requires NoMatch(a, p)
    ensures Find(a + b, p) == Find(b, p)
  {
    var t := a + b;
    match FirstIndex(b, p)
    case None =>
      assert NoMatch(t, p) by {
        forall j | 0 <= j < |t| ensures !p(t[j]) {
          if j >= |a| { assert t[j] == b[j - |a|]; }
        }
      }
    case Some(i) =>
      assert IsFirstMatch(t, p, |a| + i) by {
        forall j | 0 <= j < |a| + i ensures !p(t[j]) {
          if j >= |a| { assert t[j] == b[j - |a|]; }
        }
      }
      FindAtFirstIndex(t, p, |a| + i);
  }

  /** After removing the first match, the search finds the next match, if any. */
  lemma FindAfterRemoveFirst<T>(s: seq<T>, p: T -> bool, i: nat)
    requires IsFirstMatch(s, p, i)
    ensures Find(RemoveAt(s, i), p) == Find(s[i + 1..], p)
  {
    FindSkipsPrefix(s[..i], s[i + 1..], p);
  }

  /** Overwriting an element with one that `p` judges the same way leaves the
      first match where it was. */
  lemma FirstIndexUpdate<T>(s: seq<T>, p: T -> bool, i: nat, x: T)
    requires i < |s| && p(x) == p(s[i])
    ensures FirstIndex(s[i := x], p) == FirstIndex(s, p)
  {
    var t := s[i := x];
    match FirstIndex(s, p)
    case None =>
      assert NoMatch(t, p);
    case Some(k) =>
      assert IsFirstMatch(t, p, k);
      FindAtFirstIndex(t, p, k);
  }

  /** Under the same condition, `find` sees the new element only if it
      replaced the first match. */
  lemma FindUpdate<T>(s: seq<T>, p: T -> bool, i: nat, x: T)
    requires i < |s| && p(x) == p(s[i])
    ensures Find(s[i := x], p) == if FirstIndex(s, p) == Some(i) then Some(x) else Find(s, p)
  {
    FirstIndexUpdate(s, p, i, x);
  }

  /** The `find`, `indexOf`, `splice(index, 1)` idiom: the remaining elements
      and the element `find` returned. When nothing matches, `indexOf` yields -1
      and `splice(-1, 1)` removes the last element. */
  function DeleteFirst<T(==)>(s: seq<T>, p: T -> bool): (r: (seq<T>, Option<T>))
    ensures match FirstIndex(s, p)
            case Some(i) => r.0 == RemoveAt(s, i) && r.1 == Some(s[i])
            case None => r.0 == (if |s| == 0 then s else s[..|s| - 1]) && r.1 == None
  {
    var found := Find(s, p);
    var index := IndexOf(s, found);
    IndexOfFound(s, p);
    SpliceOneFromEnd(s);
    if 0 <= index then SpliceOneAt(s, index); (Splice(s, index, 1), found)
    else (Splice(s, index, 1), found)
  }

  /** The `find`, then assign-fields idiom: the first match is replaced by
      `f` of itself, which is also returned. Assigning a field of `undefined`
      throws, so no match gives `None`. */
  function UpdateFirst<T>(s: seq<T>, p: T -> bool, f: T -> T): (r: Option<(seq<T>, T)>)
    ensures r.None? <==> NoMatch(s, p)
    ensures r.Some? ==>
              exists i :: IsFirstMatch(s, p, i) && r.value.0 == s[i := f(s[i])] && r.value.1 == f(s[i])
  {
    match FirstIndex(s, p)
    case None => None
    case Some(i) => Some((s[i := f(s[i])], f(s[i])))
  }
}
