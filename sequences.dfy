/** Small facts about sequences shared by both graph models. */
module Sequences {

  /** No element occurs twice. */
  ghost predicate Distinct<T>(s: seq<T>)
  {
    forall i, j | 0 <= i < j < |s| :: s[i] != s[j]
  }

  /** Removing one position keeps every element that differs from the removed one. */
  lemma RemoveAtKeeps<T>(s: seq<T>, k: nat, x: T)
    requires k < |s| && x in s && x != s[k]
    ensures x in s[..k] + s[k + 1..]
  {
    var i :| 0 <= i < |s| && s[i] == x;
    if i < k {
      assert (s[..k] + s[k + 1..])[i] == x;
    } else {
      assert (s[..k] + s[k + 1..])[i - 1] == x;
    }
  }

  /** Some element of a non-empty set, chosen arbitrarily (the order of a Python dict or set
      iteration is not modelled). */
  method Choose<T>(s: set<T>) returns (x: T)
    requires s != {}
    ensures x in s
  {
    x :| x in s;
  }

  /** Splitting off the first element (a queue's popleft). */
  lemma SplitFirst<T>(s: seq<T>)
    requires |s| > 0
    ensures s == [] + [s[0]] + s[1..] && s[0] in s
  {
  }

  /** Splitting off the last element (a stack's pop). */
  lemma SplitLast<T>(s: seq<T>)
    requires |s| > 0
    ensures s == s[..|s| - 1] + [s[|s| - 1]] && s[|s| - 1] in s
  {
  }

  lemma ConcatEmpty<T>(s: seq<T>)
    ensures [] + s == s && s + [] == s
  {
  }

  /** n copies of x. */
  function Repeat<T>(x: T, n: nat): (r: seq<T>)
    ensures |r| == n && forall i | 0 <= i < n :: r[i] == x
  {
    seq(n, _ => x)
  }

  /** Every entry lies in [lo, hi) (a traversal frontier's owner positions). */
  ghost predicate OwnersIn(owner: seq<int>, lo: int, hi: int)
  {
    forall j | 0 <= j < |owner| :: lo <= owner[j] < hi
  }

  /** Entries never decrease from the bottom of a stack (the front of a queue) on. */
  ghost predicate OwnersSorted(owner: seq<int>)
  {
    forall j1, j2 | 0 <= j1 < j2 < |owner| :: owner[j1] <= owner[j2]
  }

  /** Adding c entries owned by q, the latest position, keeps the owners in range and sorted. */
  lemma PushOwners(kept: seq<int>, q: int, c: nat)
    requires 0 <= q && OwnersIn(kept, 0, q) && OwnersSorted(kept)
    ensures OwnersIn(kept + Repeat(q, c), 0, q + 1) && OwnersSorted(kept + Repeat(q, c))
  {
    var O := kept + Repeat(q, c);
    assert forall j | 0 <= j < |kept| :: O[j] == kept[j];
    assert forall j | |kept| <= j < |O| :: O[j] == q;
  }

  /** If every element of q already occurs in q[..n] and q goes on past n, then q repeats an element. */
  lemma NextRepeats<T>(q: seq<T>, n: nat)
    ensures n < |q| && (forall v | v in q :: v in q[..n]) ==> !Distinct(q)
  {
    if n < |q| && (forall v | v in q :: v in q[..n]) {
      assert q[n] in q;
      var j :| 0 <= j < n && q[..n][j] == q[n];
      assert q[j] == q[n];
    }
  }
}
