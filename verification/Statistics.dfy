/** The library statistics the reconstruction calls, in exact arithmetic. */
module Statistics {

  function Max(s: seq<real>): (m: real)
    requires s != []
    ensures m in s && forall k | 0 <= k < |s| :: s[k] <= m
  {
    if |s| == 1 then s[0]
    else
      var rest := Max(s[1..]);
      assert s == [s[0]] + s[1..];
      if s[0] > rest then s[0] else rest
  }

  lemma MaxIndex(s: seq<real>) returns (k: nat)
    requires s != []
    ensures k < |s| && s[k] == Max(s)
  {
    k :| 0 <= k < |s| && s[k] == Max(s);
  }

  predicate Sorted(s: seq<real>) {
    forall i, j | 0 <= i <= j < |s| :: s[i] <= s[j]
  }

  function Insert(x: real, s: seq<real>): (r: seq<real>)
    requires Sorted(s)
    ensures Sorted(r) && |r| == |s| + 1
    ensures r[0] == if s == [] || x <= s[0] then x else s[0]
  {
    if s == [] then [x]
    else if x <= s[0] then [x] + s
    else [s[0]] + Insert(x, s[1..])
  }

  /** The sorted permutation of a list. */
  function Sort(s: seq<real>): (r: seq<real>)
    ensures Sorted(r) && |r| == |s|
  {
    if s == [] then [] else Insert(s[0], Sort(s[1..]))
  }

  lemma {:induction false} InsertPermutes(x: real, s: seq<real>)
    requires Sorted(s)
    ensures multiset(Insert(x, s)) == multiset(s) + multiset{x}
  {
    if s != [] {
      assert s == [s[0]] + s[1..];
      if x > s[0] {
        InsertPermutes(x, s[1..]);
      }
    }
  }

  lemma {:induction false} SortPermutes(s: seq<real>)
    ensures multiset(Sort(s)) == multiset(s)
  {
    if s != [] {
      SortPermutes(s[1..]);
      InsertPermutes(s[0], Sort(s[1..]));
      assert s == [s[0]] + s[1..];
    }
  }

  /** The middle value, or the mean of the two middle ones. */
  function Median(s: seq<real>): real
    requires s != []
  {
    var t, h := Sort(s), |s| / 2;
    if |s| % 2 == 1 then t[h] else (t[h - 1] + t[h]) / 2.0
  }

  lemma HeadIsLeast(a: seq<real>, b: seq<real>)
    requires Sorted(a) && Sorted(b) && multiset(a) == multiset(b) && a != []
    ensures b != [] && a[0] == b[0]
  {
    assert a[0] in multiset(a) && a[0] in multiset(b);
    assert |multiset(b)| == |b|;
    assert b[0] in multiset(b) && b[0] in multiset(a);
  }

  lemma TailOf(a: seq<real>)
    requires a != []
    ensures a == [a[0]] + a[1..] && multiset(a[1..]) == multiset(a) - multiset{a[0]}
  {
    assert a == [a[0]] + a[1..];
  }

  /** A list has one sorted order. */
  lemma {:induction false} SortedIsUnique(a: seq<real>, b: seq<real>)
    requires Sorted(a) && Sorted(b) && multiset(a) == multiset(b)
    ensures a == b
  {
    if a == [] {
      assert |multiset(b)| == |b|;
    } else {
      HeadIsLeast(a, b);
      TailOf(a);
      TailOf(b);
      SortedIsUnique(a[1..], b[1..]);
    }
  }

  /** The median is the middle of any sorted order of the values, or halfway between the two middle ones. */
  lemma MedianIsMiddle(s: seq<real>, t: seq<real>)
    requires s != [] && Sorted(t) && multiset(t) == multiset(s)
    ensures |t| == |s|
    ensures Median(s) == if |t| % 2 == 1 then t[(|t| - 1) / 2] else (t[|t| / 2 - 1] + t[|t| / 2]) / 2.0
  {
    SortPermutes(s);
    SortedIsUnique(t, Sort(s));
  }

  /** The median lies between any bounds of the values. */
  lemma MedianBetween(s: seq<real>, lo: real, hi: real)
    requires s != [] && forall k | 0 <= k < |s| :: lo <= s[k] <= hi
    ensures lo <= Median(s) <= hi
  {
    var t := Sort(s);
    SortPermutes(s);
    forall k | 0 <= k < |t| ensures lo <= t[k] <= hi {
      assert t[k] in multiset(t);
      assert t[k] in multiset(s);
    }
  }

  lemma MedianAtMostMax(s: seq<real>)
    requires s != []
    ensures Median(s) <= Max(s)
  {
    MedianBetween(s, Least(s), Max(s));
  }

  function Least(s: seq<real>): (m: real)
    requires s != []
    ensures m in s && forall k | 0 <= k < |s| :: m <= s[k]
  {
    if |s| == 1 then s[0]
    else
      var rest := Least(s[1..]);
      assert s == [s[0]] + s[1..];
      if s[0] < rest then s[0] else rest
  }

  lemma MedianPositive(s: seq<real>)
    requires s != [] && forall k | 0 <= k < |s| :: s[k] > 0.0
    ensures Median(s) > 0.0
  {
    MedianBetween(s, Least(s), Max(s));
  }
}
