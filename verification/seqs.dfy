/** Order-preserving selection on sequences (`Array.prototype.filter`) and
    the stable partition built from two complementary selections. */
module Seqs {

  /** The elements whose `p`-value equals `keep`, in their original order:
      `s.filter(p)` when `keep` is true, `s.filter(x => !p(x))` when false. */
  function Select<T>(p: T -> bool, keep: bool, s: seq<T>): (r: seq<T>)
    ensures |r| <= |s|
    ensures forall x :: x in r ==> x in s && p(x) == keep
  {
    if |s| == 0 then []
    else if p(s[0]) == keep then [s[0]] + Select(p, keep, s[1..])
    else Select(p, keep, s[1..])
  }

  /** `[...s.filter(p), ...s.filter(x => !p(x))]`. */
  function Partition<T>(p: T -> bool, s: seq<T>): seq<T>
  {
    Select(p, true, s) + Select(p, false, s)
  }

  /** Every element satisfying `p` comes before every element that does not. */
  ghost predicate SelectedFirst<T>(p: T -> bool, r: seq<T>) {
    forall i, j :: 0 <= i < j < |r| && p(r[j]) ==> p(r[i])
  }

  lemma {:induction false} SelectAppend<T>(p: T -> bool, keep: bool, a: seq<T>, b: seq<T>)
    ensures Select(p, keep, a + b) == Select(p, keep, a) + Select(p, keep, b)
    decreases |a|
  {
    if |a| == 0 {
      assert a + b == b;
    } else {
      assert (a + b)[0] == a[0];
      assert (a + b)[1..] == a[1..] + b;
      SelectAppend(p, keep, a[1..], b);
      if p(a[0]) == keep {
        calc {
          Select(p, keep, a + b);
          [a[0]] + Select(p, keep, a[1..] + b);
          [a[0]] + (Select(p, keep, a[1..]) + Select(p, keep, b));
          ([a[0]] + Select(p, keep, a[1..])) + Select(p, keep, b);
        }
      }
    }
  }

  /** Selection keeps a sequence whose elements all have the wanted value. */
  lemma {:induction false} SelectAll<T>(p: T -> bool, keep: bool, s: seq<T>)
    requires forall i :: 0 <= i < |s| ==> p(s[i]) == keep
    ensures Select(p, keep, s) == s
    decreases |s|
  {
    if |s| > 0 {
      SelectAll(p, keep, s[1..]);
      assert s == [s[0]] + s[1..];
    }
  }

  /** Selection empties a sequence none of whose elements has the wanted value. */
  lemma {:induction false} SelectNone<T>(p: T -> bool, keep: bool, s: seq<T>)
    requires forall i :: 0 <= i < |s| ==> p(s[i]) != keep
    ensures Select(p, keep, s) == []
    decreases |s|
  {
    if |s| > 0 {
      SelectNone(p, keep, s[1..]);
    }
  }

  /** Each occurrence is either kept whole or dropped whole. */
  lemma {:induction false} SelectMultiplicity<T>(p: T -> bool, keep: bool, s: seq<T>)
    ensures forall x :: multiset(Select(p, keep, s))[x] == if p(x) == keep then multiset(s)[x] else 0
    decreases |s|
  {
    if |s| > 0 {
      SelectMultiplicity(p, keep, s[1..]);
      assert s == [s[0]] + s[1..];
      assert multiset(s) == multiset{s[0]} + multiset(s[1..]);
    }
  }

  /** An element is selected exactly when it occurs and has the wanted value. */
  lemma SelectMembership<T>(p: T -> bool, keep: bool, s: seq<T>)
    ensures forall x :: x in Select(p, keep, s) <==> x in s && p(x) == keep
  {
    SelectMultiplicity(p, keep, s);
    forall x | x in s && p(x) == keep
      ensures x in Select(p, keep, s)
    {
      assert multiset(s)[x] > 0;
    }
  }

  /** The two halves of a partition together hold every element exactly as
      often as the input does. */
  lemma {:induction false} PartitionPermutes<T>(p: T -> bool, s: seq<T>)
    ensures multiset(Partition(p, s)) == multiset(s)
    decreases |s|
  {
    if |s| > 0 {
      var t := s[1..];
      PartitionPermutes(p, t);
      assert s == [s[0]] + t;
      var a, b := Select(p, true, t), Select(p, false, t);
      assert multiset(a + b) == multiset(t);
      if p(s[0]) {
        assert Partition(p, s) == [s[0]] + (a + b);
      } else {
        assert Partition(p, s) == a + ([s[0]] + b);
        assert multiset(a + ([s[0]] + b)) == multiset(a) + multiset{s[0]} + multiset(b);
      }
    }
  }

  lemma PartitionSelectedFirst<T>(p: T -> bool, s: seq<T>)
    ensures SelectedFirst(p, Partition(p, s))
  {
    var a, b := Select(p, true, s), Select(p, false, s);
    var r := Partition(p, s);
    forall k | 0 <= k < |a|
      ensures p(r[k])
    {
      assert r[k] == a[k] && a[k] in a;
    }
    forall k | |a| <= k < |r|
      ensures !p(r[k])
    {
      assert r[k] == b[k - |a|] && b[k - |a|] in b;
    }
  }

  /** Stability: selecting either class from the partition gives that class
      of the input, in the input's order. */
  lemma PartitionStable<T>(p: T -> bool, s: seq<T>)
    ensures Select(p, true, Partition(p, s)) == Select(p, true, s)
    ensures Select(p, false, Partition(p, s)) == Select(p, false, s)
  {
    var a, b := Select(p, true, s), Select(p, false, s);
    SelectAppend(p, true, a, b);
    SelectAppend(p, false, a, b);
    assert forall i :: 0 <= i < |a| ==> a[i] in a;
    assert forall i :: 0 <= i < |b| ==> b[i] in b;
    SelectAll(p, true, a);
    SelectNone(p, true, b);
    SelectNone(p, false, a);
    SelectAll(p, false, b);
  }

  /** A sequence with its selected elements first is the concatenation of its
      two classes. */
  lemma {:induction false} SelectedFirstSplits<T>(p: T -> bool, r: seq<T>)
    requires SelectedFirst(p, r)
    ensures r == Select(p, true, r) + Select(p, false, r)
    decreases |r|
  {
    if |r| > 0 {
      if p(r[0]) {
        assert SelectedFirst(p, r[1..]) by {
          forall i, j | 0 <= i < j < |r[1..]| && p(r[1..][j])
            ensures p(r[1..][i])
          {
            assert r[1..][j] == r[j + 1] && r[1..][i] == r[i + 1];
          }
        }
        SelectedFirstSplits(p, r[1..]);
        assert r == [r[0]] + r[1..];
      } else {
        SelectNone(p, true, r);
        SelectAll(p, false, r);
      }
    }
  }

  /** The partition is the only arrangement that puts the selected elements
      first and keeps each class in input order. */
  lemma PartitionUnique<T>(p: T -> bool, s: seq<T>, r: seq<T>)
    requires SelectedFirst(p, r)
    requires Select(p, true, r) == Select(p, true, s)
    requires Select(p, false, r) == Select(p, false, s)
    ensures r == Partition(p, s)
  {
    SelectedFirstSplits(p, r);
  }

  /** Selection depends only on the predicate's values on the elements. */
  lemma {:induction false} SelectCongruent<T>(p: T -> bool, q: T -> bool, keep: bool, s: seq<T>)
    requires forall i :: 0 <= i < |s| ==> p(s[i]) == q(s[i])
    ensures Select(p, keep, s) == Select(q, keep, s)
    decreases |s|
  {
    if |s| > 0 {
      SelectCongruent(p, q, keep, s[1..]);
    }
  }
}
