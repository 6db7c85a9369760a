/** The array operations the core uses: `Array.prototype.find`, the in-place
    `reverse`, and the concatenation of fetched pages. */
module Lists {
  import opened Wrappers

  /** `s.findIndex(p)`, with `None` for -1: the index of the first element
      satisfying `p`. */
  function FindIndex<T>(s: seq<T>, p: T -> bool): (r: Option<nat>)
    ensures r.None? <==> forall i :: 0 <= i < |s| ==> !p(s[i])
    ensures r.Some? ==> FirstAt(s, p, r.value)
    decreases |s|
  {
    if s == [] then None
    else if p(s[0]) then Some(0)
    else
      match FindIndex(s[1..], p)
      case None => None
      case Some(i) =>
        assert s[1..][i] == s[i + 1];
        Some(i + 1)
  }

  /** `s.find(p)`: the first element satisfying `p`, or `None`. */
  function Find<T>(s: seq<T>, p: T -> bool): (r: Option<T>)
    ensures r.None? <==> forall i :: 0 <= i < |s| ==> !p(s[i])
    ensures r.Some? ==> p(r.value) && exists i :: FirstAt(s, p, i) && s[i] == r.value
  {
    match FindIndex(s, p)
    case None => None
    case Some(i) => Some(s[i])
  }

  /** The first element that satisfies `p` is the one FindIndex finds. */
  lemma FindIndexIs<T>(s: seq<T>, p: T -> bool, i: nat)
    requires FirstAt(s, p, i)
    ensures FindIndex(s, p) == Some(i)
  {
  }

  /** `i` is the index of the first element of `s` that satisfies `p`. */
  predicate FirstAt<T>(s: seq<T>, p: T -> bool, i: int) {
    0 <= i < |s| && p(s[i]) && forall j :: 0 <= j < i ==> !p(s[j])
  }

  /** Two first matches are the same one. */
  lemma FirstAtUnique<T>(s: seq<T>, p: T -> bool, i: int, j: int)
    requires FirstAt(s, p, i) && FirstAt(s, p, j)
    ensures i == j
  {
  }

  /** Some index from `k` to `n`, both included, satisfies `p`: a search
      that tries the indices in increasing order. */
  predicate AnyFrom(p: nat -> bool, k: nat, n: nat)
    decreases n - k
  {
    k <= n && (p(k) || AnyFrom(p, k + 1, n))
  }

  lemma {:induction false} AnyFromExists(p: nat -> bool, k: nat, n: nat)
    ensures AnyFrom(p, k, n) <==> exists j :: k <= j <= n && p(j)
    decreases n - k
  {
    if k <= n {
      AnyFromExists(p, k + 1, n);
      if exists j :: k <= j <= n && p(j) {
        var j :| k <= j <= n && p(j);
        assert j == k || (k + 1 <= j <= n && p(j));
      }
    }
  }

  /** The elements of `s` in the opposite order. */
  function Reversed<T>(s: seq<T>): (r: seq<T>)
    ensures |r| == |s|
  {
    if s == [] then [] else [s[|s| - 1]] + Reversed(s[..|s| - 1])
  }

  lemma {:induction false} ReversedIndex<T>(s: seq<T>, k: nat)
    requires k < |s|
    ensures Reversed(s)[k] == s[|s| - 1 - k]
  {
    if k > 0 {
      ReversedIndex(s[..|s| - 1], k - 1);
    }
  }

  /** Reversing twice gives back the original order. */
  lemma ReversedTwice<T>(s: seq<T>)
    ensures Reversed(Reversed(s)) == s
  {
    forall k | 0 <= k < |s|
      ensures Reversed(Reversed(s))[k] == s[k]
    {
      ReversedIndex(Reversed(s), k);
      ReversedIndex(s, |s| - 1 - k);
    }
  }

  /** `a.reverse()`: swaps the two ends inward until they meet. */
  method ReverseInPlace<T>(a: array<T>)
    modifies a
    ensures a[..] == Reversed(old(a[..]))
  {
    var lo, hi := 0, a.Length;
    while lo + 1 < hi
      invariant 0 <= lo <= hi <= a.Length && lo + hi == a.Length
      invariant forall k :: 0 <= k < lo ==> a[k] == old(a[a.Length - 1 - k])
      invariant forall k :: hi <= k < a.Length ==> a[k] == old(a[a.Length - 1 - k])
      invariant forall k :: lo <= k < hi ==> a[k] == old(a[k])
    {
      a[lo], a[hi - 1] := a[hi - 1], a[lo];
      lo, hi := lo + 1, hi - 1;
    }
    forall k | 0 <= k < a.Length
      ensures a[k] == Reversed(old(a[..]))[k]
    {
      ReversedIndex(old(a[..]), k);
    }
  }

  /** The pages of a paginated listing, in order, as one list. */
  function Concat<T>(pages: seq<seq<T>>): (r: seq<T>)
  {
    if pages == [] then [] else Concat(pages[..|pages| - 1]) + pages[|pages| - 1]
  }

  lemma {:induction false} ConcatAppend<T>(a: seq<seq<T>>, b: seq<seq<T>>)
    ensures Concat(a + b) == Concat(a) + Concat(b)
    decreases |b|
  {
    if b == [] {
      assert a + b == a;
    } else {
      var b' := b[..|b| - 1];
      assert (a + b)[..|a + b| - 1] == a + b';
      ConcatAppend(a, b');
    }
  }
}
