/** Sequence helpers that mirror the JavaScript array operations the rules use. */
module Seqs {

  /** No element occurs twice. */
  predicate Distinct<T(==)>(s: seq<T>)
  {
    forall i, j :: 0 <= i < j < |s| ==> s[i] != s[j]
  }

  /** `Array.prototype.indexOf`: the first position holding `x`, or -1 when there is none. */
  function IndexOf<T(==)>(s: seq<T>, x: T): (r: int)
    ensures x in s ==> 0 <= r < |s| && s[r] == x && x !in s[..r]
    ensures x !in s ==> r == -1
  {
    if |s| == 0 then -1
    else if s[0] == x then 0
    else
      var k := IndexOf(s[1..], x);
      if k == -1 then -1
      else
        assert s[..k + 1] == [s[0]] + s[1..][..k];
        k + 1
  }

  /** `acc` followed by every element of `xs` that was not seen before, in order of first occurrence.
      This is the key order of a JavaScript `Map` after setting the keys `xs` on a map whose keys are `acc`. */
  function AppendNew<T(==,!new)>(acc: seq<T>, xs: seq<T>): (r: seq<T>)
    ensures Distinct(acc) ==> Distinct(r)
    ensures forall x :: x in r <==> x in acc || x in xs
    ensures |acc| <= |r| && r[..|acc|] == acc
    decreases |xs|
  {
    if |xs| == 0 then acc
    else
      var acc' := if xs[0] in acc then acc else acc + [xs[0]];
      var r := AppendNew(acc', xs[1..]);
      assert acc'[..|acc|] == acc;
      assert r[..|acc|] == r[..|acc'|][..|acc|];
      r
  }

  /** The elements of a sequence, as a set. */
  function Elements<T>(s: seq<T>): set<T>
  {
    set x | x in s
  }

  /** A sequence without repetitions has as many elements as its set has members. */
  lemma {:induction false} DistinctCardinality<T>(s: seq<T>)
    requires Distinct(s)
    ensures |Elements(s)| == |s|
  {
    if |s| > 0 {
      var t := s[1..];
      DistinctCardinality(t);
      assert Elements(s) == {s[0]} + Elements(t);
      assert s[0] !in Elements(t);
    }
  }

  /** A subset of a finite set with the same number of members is the whole set. */
  lemma SubsetOfSameSize<T>(a: set<T>, b: set<T>)
    requires a <= b && |a| == |b|
    ensures a == b
  {
    if a != b {
      var x :| x in b && x !in a;
      assert a <= b - {x};
      assert |b - {x}| == |b| - 1;
      SubsetCardinality(a, b - {x});
    }
  }

  /** A subset has no more members than its superset. */
  lemma {:induction false} SubsetCardinality<T>(a: set<T>, b: set<T>)
    requires a <= b
    ensures |a| <= |b|
    decreases |b|
  {
    if a != {} {
      var x :| x in a;
      SubsetCardinality(a - {x}, b - {x});
    }
  }

  /** Every element of a sequence without repetitions that has as many elements as `whole`, and whose
      elements all occur in `whole`, is in it and vice versa. */
  lemma {:induction false} FillsWhole<T>(part: seq<T>, whole: seq<T>)
    requires Distinct(part)
    requires |part| == |whole|
    requires forall x :: x in part ==> x in whole
    ensures forall x :: x in whole ==> x in part
  {
    DistinctCardinality(part);
    var w := Elements(whole);
    assert Elements(part) <= w;
    SubsetCardinality(Elements(part), w);
    assert |w| <= |whole| by { ElementsAtMost(whole); }
    SubsetOfSameSize(Elements(part), w);
    forall x | x in whole
      ensures x in part
    {
      assert x in w;
    }
  }

  /** A sequence without repetitions drawn from `whole` is no longer than `whole`. */
  lemma DistinctWithin<T>(part: seq<T>, whole: seq<T>)
    requires Distinct(part)
    requires forall x :: x in part ==> x in whole
    ensures |part| <= |whole|
  {
    DistinctCardinality(part);
    SubsetCardinality(Elements(part), Elements(whole));
    ElementsAtMost(whole);
  }

  /** A sequence has at least as many positions as distinct elements. */
  lemma {:induction false} ElementsAtMost<T>(s: seq<T>)
    ensures |Elements(s)| <= |s|
  {
    if |s| > 0 {
      ElementsAtMost(s[1..]);
      assert Elements(s) == {s[0]} + Elements(s[1..]);
    }
  }

  /** Appending to a non-empty sequence appends to its tail. */
  lemma ConsAppend<T>(s: seq<T>, x: T)
    requires |s| > 0
    ensures s + [x] == [s[0]] + (s[1..] + [x])
  {
    assert s == [s[0]] + s[1..];
  }

  /** Moving the first element of `b` to the end of `a` leaves the concatenation unchanged. */
  lemma ShiftFirst<T>(a: seq<T>, b: seq<T>)
    requires |b| > 0
    ensures (a + [b[0]]) + b[1..] == a + b
  {
    assert b == [b[0]] + b[1..];
  }

  lemma AppendAssoc<T>(a: seq<T>, b: seq<T>, c: seq<T>)
    ensures (a + b) + c == a + (b + c)
  {
  }

  /** Putting a new element in front keeps a sequence free of repetitions. */
  lemma DistinctCons<T>(x: T, s: seq<T>)
    requires Distinct(s) && x !in s
    ensures Distinct([x] + s)
  {
    forall i, j | 0 <= i < j < |[x] + s|
      ensures ([x] + s)[i] != ([x] + s)[j]
    {
      assert ([x] + s)[j] == s[j - 1];
      if i > 0 {
        assert ([x] + s)[i] == s[i - 1];
      }
    }
  }

  /** The concatenation of the parts, in order. */
  function Flatten<T>(ss: seq<seq<T>>): seq<T>
    decreases |ss|
  {
    if |ss| == 0 then [] else ss[0] + Flatten(ss[1..])
  }

  /** Where the `k`-th element of `Flatten(ss)` sits: its part, and its position in that part. */
  function Locate<T>(ss: seq<seq<T>>, k: nat): (r: (nat, nat))
    requires k < |Flatten(ss)|
    ensures r.0 < |ss| && r.1 < |ss[r.0]|
    ensures Flatten(ss)[k] == ss[r.0][r.1]
    decreases |ss|
  {
    if k < |ss[0]| then (0, k)
    else
      var (i, j) := Locate(ss[1..], k - |ss[0]|);
      (i + 1, j)
  }

  /** `Locate` is strictly increasing in the order part first, then position. */
  lemma {:induction false} LocateInOrder<T>(ss: seq<seq<T>>, k1: nat, k2: nat)
    requires k1 < k2 < |Flatten(ss)|
    ensures Locate(ss, k1).0 < Locate(ss, k2).0 || (Locate(ss, k1).0 == Locate(ss, k2).0 && Locate(ss, k1).1 < Locate(ss, k2).1)
    decreases |ss|
  {
    if k1 >= |ss[0]| {
      LocateInOrder(ss[1..], k1 - |ss[0]|, k2 - |ss[0]|);
    }
  }

  /** Every element of every part has a position in `Flatten(ss)`. */
  lemma {:induction false} LocateCovers<T>(ss: seq<seq<T>>, i: nat, j: nat)
    requires i < |ss| && j < |ss[i]|
    ensures exists k: nat :: k < |Flatten(ss)| && Locate(ss, k) == (i, j)
    decreases |ss|
  {
    if i == 0 {
      assert Locate(ss, j) == (0, j);
    } else {
      LocateCovers(ss[1..], i - 1, j);
      var k: nat :| k < |Flatten(ss[1..])| && Locate(ss[1..], k) == (i - 1, j);
      assert Locate(ss, |ss[0]| + k) == (i, j);
    }
  }
}
