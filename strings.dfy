/**
 * Python's ordering of str values and the list.sort that ud_graph.py applies
 * to neighbour lists, with and without reverse=True.
 */
module StringOrder {

  /** Python's str comparison a < b: code point by code point, a proper prefix first. */
  predicate Less(a: string, b: string)
  {
    if |a| == 0 then |b| > 0
    else if |b| == 0 then false
    else if a[0] != b[0] then a[0] < b[0]
    else Less(a[1..], b[1..])
  }

  lemma {:induction false} LessIrreflexive(a: string)
    ensures !Less(a, a)
  {
    if |a| > 0 {
      LessIrreflexive(a[1..]);
    }
  }

  lemma {:induction false} LessTransitive(a: string, b: string, c: string)
    requires Less(a, b) && Less(b, c)
    ensures Less(a, c)
  {
    if |a| > 0 && |b| > 0 && |c| > 0 && a[0] == b[0] && b[0] == c[0] {
      LessTransitive(a[1..], b[1..], c[1..]);
    }
  }

  lemma {:induction false} LessTotal(a: string, b: string)
    ensures a == b || Less(a, b) || Less(b, a)
  {
    if |a| > 0 && |b| > 0 && a[0] == b[0] {
      LessTotal(a[1..], b[1..]);
      if a[1..] == b[1..] {
        assert a == [a[0]] + a[1..] && b == [b[0]] + b[1..];
      }
    }
  }

  lemma LessAsymmetric(a: string, b: string)
    requires Less(a, b)
    ensures !Less(b, a)
  {
    if Less(b, a) {
      LessTransitive(a, b, a);
      LessIrreflexive(a);
    }
  }

  /** a comes strictly before b in ascending order, or in descending order when desc holds. */
  predicate Precedes(desc: bool, a: string, b: string)
  {
    if desc then Less(b, a) else Less(a, b)
  }

  lemma PrecedesTotal(desc: bool, a: string, b: string)
    ensures a == b || Precedes(desc, a, b) || Precedes(desc, b, a)
  {
    LessTotal(a, b);
  }

  /** What list.sort leaves: no element comes before an earlier one. */
  predicate Sorted(s: seq<string>, desc: bool)
  {
    forall i, j | 0 <= i < j < |s| :: !Precedes(desc, s[j], s[i])
  }

  /** Inserts x into a list in front of the first element that x does not follow. */
  function Insert(x: string, s: seq<string>, desc: bool): (r: seq<string>)
    ensures multiset(r) == multiset(s) + multiset{x}
  {
    if |s| == 0 then [x]
    else if Precedes(desc, s[0], x) then
      assert s == [s[0]] + s[1..];
      [s[0]] + Insert(x, s[1..], desc)
    else [x] + s
  }

  /** A sorted list stays sorted when an element that nothing in it precedes is put in front. */
  lemma ConsSorted(h: string, s: seq<string>, desc: bool)
    requires Sorted(s, desc)
    requires forall y | y in s :: !Precedes(desc, y, h)
    ensures Sorted([h] + s, desc)
  {
    var r := [h] + s;
    forall i, j | 0 <= i < j < |r|
      ensures !Precedes(desc, r[j], r[i])
    {
      if i > 0 {
        assert r[i] == s[i - 1] && r[j] == s[j - 1];
      } else {
        assert r[j] == s[j - 1];
      }
    }
  }

  /** If x is not preceded by the head of a sorted list, nothing in the list precedes x. */
  lemma NothingBefore(x: string, s: seq<string>, desc: bool)
    requires Sorted(s, desc) && |s| > 0 && !Precedes(desc, s[0], x)
    ensures forall y | y in s :: !Precedes(desc, y, x)
  {
    forall y | y in s
      ensures !Precedes(desc, y, x)
    {
      var i :| 0 <= i < |s| && s[i] == y;
      if i > 0 && Precedes(desc, y, x) {
        PrecedesTotal(desc, s[0], x);
        if s[0] != x {
          if desc { LessTransitive(s[0], x, y); } else { LessTransitive(y, x, s[0]); }
        }
      }
    }
  }

  lemma {:induction false} InsertSorted(x: string, s: seq<string>, desc: bool)
    requires Sorted(s, desc)
    ensures Sorted(Insert(x, s, desc), desc)
  {
    if |s| == 0 {
    } else if Precedes(desc, s[0], x) {
      var rest := Insert(x, s[1..], desc);
      assert Sorted(s[1..], desc) by {
        forall i, j | 0 <= i < j < |s[1..]|
          ensures !Precedes(desc, s[1..][j], s[1..][i])
        {
          assert s[1..][j] == s[j + 1] && s[1..][i] == s[i + 1];
        }
      }
      InsertSorted(x, s[1..], desc);
      forall y | y in rest
        ensures !Precedes(desc, y, s[0])
      {
        assert y in multiset(s[1..]) + multiset{x};
        if y == x {
          if desc { LessAsymmetric(x, s[0]); } else { LessAsymmetric(s[0], x); }
        } else {
          var k :| 0 <= k < |s[1..]| && s[1..][k] == y;
          assert s[k + 1] == y;
        }
      }
      ConsSorted(s[0], rest, desc);
    } else {
      NothingBefore(x, s, desc);
      ConsSorted(x, s, desc);
    }
  }

  /** Insertion sort: a sorted permutation of s. */
  function SortBy(s: seq<string>, desc: bool): (r: seq<string>)
    ensures multiset(r) == multiset(s)
    ensures Sorted(r, desc)
  {
    if |s| == 0 then []
    else
      assert s == [s[0]] + s[1..];
      var rest := SortBy(s[1..], desc);
      InsertSorted(s[0], rest, desc);
      Insert(s[0], rest, desc)
  }

  /** A sorted list has a least element (greatest when desc) in front. */
  lemma HeadIsFirst(s: seq<string>, desc: bool, y: string)
    requires Sorted(s, desc) && |s| > 0 && y in s
    ensures !Precedes(desc, y, s[0])
  {
    var k :| 0 <= k < |s| && s[k] == y;
    if k > 0 {
      assert !Precedes(desc, s[k], s[0]);
    } else {
      LessIrreflexive(y);
    }
  }

  lemma TailSorted(s: seq<string>, desc: bool)
    requires Sorted(s, desc) && |s| > 0
    ensures Sorted(s[1..], desc)
  {
    forall i, j | 0 <= i < j < |s| - 1
      ensures !Precedes(desc, s[1..][j], s[1..][i])
    {
      assert s[1..][j] == s[j + 1] && s[1..][i] == s[i + 1];
    }
  }

  /** Two sorted permutations of the same non-empty list start alike. */
  lemma SameHead(a: seq<string>, b: seq<string>, desc: bool)
    requires Sorted(a, desc) && Sorted(b, desc) && multiset(a) == multiset(b) && |a| > 0
    ensures |b| > 0 && a[0] == b[0]
  {
    assert |multiset(b)| == |multiset(a)| == |a|;
    assert a[0] in multiset(b) && b[0] in multiset(a);
    HeadIsFirst(a, desc, b[0]);
    HeadIsFirst(b, desc, a[0]);
    PrecedesTotal(desc, a[0], b[0]);
  }

  /** Two sorted permutations of the same list are equal, so any correct sort gives SortBy's answer. */
  lemma {:induction false} SortedUnique(a: seq<string>, b: seq<string>, desc: bool)
    requires Sorted(a, desc) && Sorted(b, desc) && multiset(a) == multiset(b)
    ensures a == b
    decreases |a|
  {
    if |a| > 0 {
      SameHead(a, b, desc);
      assert a == [a[0]] + a[1..] && b == [b[0]] + b[1..];
      assert multiset(a[1..]) == multiset(b[1..]) by {
        assert multiset(a) == multiset{a[0]} + multiset(a[1..]);
        assert multiset(b) == multiset{b[0]} + multiset(b[1..]);
        assert multiset(a[1..]) == multiset(a) - multiset{a[0]};
        assert multiset(b[1..]) == multiset(b) - multiset{b[0]};
      }
      TailSorted(a, desc);
      TailSorted(b, desc);
      SortedUnique(a[1..], b[1..], desc);
    } else {
      assert |multiset(b)| == 0;
    }
  }

  /** A sorted list without repetition is strictly ordered. */
  lemma SortedStrict(s: seq<string>, desc: bool, i: int, j: int)
    requires Sorted(s, desc) && 0 <= i < j < |s| && s[i] != s[j]
    ensures Precedes(desc, s[i], s[j])
  {
    PrecedesTotal(desc, s[i], s[j]);
  }
}
