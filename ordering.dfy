/** The order in which the cell atlas shows and exports its stored entries.
    Python compares `str` values by code point, lexicographically, and
    `list.sort()` (with or without `reverse=True`) puts a list in that order.
    The sort is a library call in the pages, so it is modelled here by the
    value it produces: an insertion sort, proved to give an ordered
    permutation of its input, and proved to be the only such permutation. */
module Ordering {

  /** Python's `a <= b` on strings. */
  predicate LessEq(a: string, b: string) {
    |a| == 0 || (|b| > 0 && (a[0] < b[0] || (a[0] == b[0] && LessEq(a[1..], b[1..]))))
  }

  lemma {:induction false} LessEqRefl(a: string)
    ensures LessEq(a, a)
  {
    if |a| > 0 {
      LessEqRefl(a[1..]);
    }
  }

  lemma {:induction false} LessEqTotal(a: string, b: string)
    ensures LessEq(a, b) || LessEq(b, a)
  {
    if |a| > 0 && |b| > 0 && a[0] == b[0] {
      LessEqTotal(a[1..], b[1..]);
    }
  }

  lemma {:induction false} LessEqAntisymmetric(a: string, b: string)
    requires LessEq(a, b) && LessEq(b, a)
    ensures a == b
  {
    if |a| > 0 && |b| > 0 {
      LessEqAntisymmetric(a[1..], b[1..]);
      assert a == [a[0]] + a[1..] && b == [b[0]] + b[1..];
    }
  }

  lemma {:induction false} LessEqTransitive(a: string, b: string, c: string)
    requires LessEq(a, b) && LessEq(b, c)
    ensures LessEq(a, c)
  {
    if |a| > 0 && |b| > 0 && |c| > 0 && a[0] == b[0] == c[0] {
      LessEqTransitive(a[1..], b[1..], c[1..]);
    }
  }

  /** Two names that start with timestamps of the same width compare like
      their timestamps when the timestamps differ, whatever follows. */
  lemma {:induction false} StampDecides(t1: string, t2: string, a: string, b: string)
    requires |t1| == |t2| && t1 != t2 && LessEq(t1, t2)
    ensures LessEq(t1 + a, t2 + b) && !LessEq(t2 + b, t1 + a)
  {
    assert |t1| > 0;
    assert (t1 + a)[0] == t1[0] && (t2 + b)[0] == t2[0];
    if t1[0] == t2[0] {
      assert t1 == [t1[0]] + t1[1..] && t2 == [t2[0]] + t2[1..];
      assert (t1 + a)[1..] == t1[1..] + a && (t2 + b)[1..] == t2[1..] + b;
      StampDecides(t1[1..], t2[1..], a, b);
    }
  }

  /** `x` may stand before `y` in the requested direction. */
  predicate Before(x: string, y: string, descending: bool) {
    if descending then LessEq(y, x) else LessEq(x, y)
  }

  predicate Ordered(s: seq<string>, descending: bool) {
    forall i, j :: 0 <= i < j < |s| ==> Before(s[i], s[j], descending)
  }

  function Insert(x: string, s: seq<string>, descending: bool): seq<string> {
    if |s| == 0 then [x]
    else if Before(x, s[0], descending) then [x] + s
    else [s[0]] + Insert(x, s[1..], descending)
  }

  /** `sorted(s)` / `sorted(s, reverse=True)`. */
  function Sort(s: seq<string>, descending: bool): seq<string> {
    if |s| == 0 then [] else Insert(s[0], Sort(s[1..], descending), descending)
  }

  lemma {:induction false} InsertPermutes(x: string, s: seq<string>, descending: bool)
    ensures multiset(Insert(x, s, descending)) == multiset(s) + multiset{x}
  {
    if |s| > 0 && !Before(x, s[0], descending) {
      InsertPermutes(x, s[1..], descending);
      assert s == [s[0]] + s[1..];
    }
  }

  lemma BeforeTransitive(x: string, y: string, z: string, descending: bool)
    requires Before(x, y, descending) && Before(y, z, descending)
    ensures Before(x, z, descending)
  {
    if descending { LessEqTransitive(z, y, x); } else { LessEqTransitive(x, y, z); }
  }

  lemma BeforeTotal(x: string, y: string, descending: bool)
    ensures Before(x, y, descending) || Before(y, x, descending)
  {
    LessEqTotal(x, y);
  }

  lemma BeforeAntisymmetric(x: string, y: string, descending: bool)
    requires Before(x, y, descending) && Before(y, x, descending)
    ensures x == y
  {
    LessEqAntisymmetric(x, y);
  }

  /** An element before every element of an ordered list may head it. */
  lemma ConsOrdered(h: string, t: seq<string>, descending: bool)
    requires Ordered(t, descending)
    requires forall j :: 0 <= j < |t| ==> Before(h, t[j], descending)
    ensures Ordered([h] + t, descending)
  {
    var r := [h] + t;
    forall i, j | 0 <= i < j < |r| ensures Before(r[i], r[j], descending) {
      assert r[j] == t[j - 1];
      if i > 0 { assert r[i] == t[i - 1]; }
    }
  }

  /** A lower bound of `x` and of every element of `s` bounds every element
      of the list `x` is inserted into. */
  lemma InsertKeepsBound(b: string, x: string, s: seq<string>, descending: bool)
    requires Before(b, x, descending)
    requires forall j :: 0 <= j < |s| ==> Before(b, s[j], descending)
    ensures forall j :: 0 <= j < |Insert(x, s, descending)| ==> Before(b, Insert(x, s, descending)[j], descending)
  {
    var t := Insert(x, s, descending);
    InsertPermutes(x, s, descending);
    forall j | 0 <= j < |t| ensures Before(b, t[j], descending) {
      assert t[j] in multiset(t);
      if t[j] != x {
        assert t[j] in multiset(s);
        var k :| 0 <= k < |s| && s[k] == t[j];
      }
    }
  }

  lemma {:induction false} InsertOrdered(x: string, s: seq<string>, descending: bool)
    requires Ordered(s, descending)
    ensures Ordered(Insert(x, s, descending), descending)
  {
    if |s| == 0 {
    } else if Before(x, s[0], descending) {
      forall j | 0 <= j < |s| ensures Before(x, s[j], descending) {
        if j > 0 { BeforeTransitive(x, s[0], s[j], descending); }
      }
      ConsOrdered(x, s, descending);
    } else {
      var tail := s[1..];
      assert Ordered(tail, descending);
      InsertOrdered(x, tail, descending);
      BeforeTotal(x, s[0], descending);
      assert forall j :: 0 <= j < |tail| ==> Before(s[0], tail[j], descending);
      InsertKeepsBound(s[0], x, tail, descending);
      ConsOrdered(s[0], Insert(x, tail, descending), descending);
    }
  }

  lemma {:induction false} SortSpec(s: seq<string>, descending: bool)
    ensures Ordered(Sort(s, descending), descending)
    ensures multiset(Sort(s, descending)) == multiset(s)
  {
    if |s| > 0 {
      SortSpec(s[1..], descending);
      InsertOrdered(s[0], Sort(s[1..], descending), descending);
      InsertPermutes(s[0], Sort(s[1..], descending), descending);
      assert s == [s[0]] + s[1..];
    }
  }

  lemma OrderedHeads(a: seq<string>, b: seq<string>, descending: bool)
    requires Ordered(a, descending) && Ordered(b, descending)
    requires |a| > 0 && |b| > 0 && multiset(a) == multiset(b)
    ensures a[0] == b[0]
  {
    assert a[0] in multiset(b);
    var k :| 0 <= k < |b| && b[k] == a[0];
    assert b[0] in multiset(a);
    var m :| 0 <= m < |a| && a[m] == b[0];
    assert Before(a[0], b[0], descending) by {
      if m == 0 { LessEqRefl(a[0]); }
    }
    assert Before(b[0], a[0], descending) by {
      if k == 0 { LessEqRefl(b[0]); }
    }
    BeforeAntisymmetric(a[0], b[0], descending);
  }

  lemma TailsPermute(a: seq<string>, b: seq<string>)
    requires |a| > 0 && |b| > 0 && a[0] == b[0] && multiset(a) == multiset(b)
    ensures multiset(a[1..]) == multiset(b[1..])
  {
    assert a == [a[0]] + a[1..] && b == [b[0]] + b[1..];
    assert multiset(a[1..]) == multiset(a) - multiset{a[0]};
    assert multiset(b[1..]) == multiset(b) - multiset{b[0]};
  }

  /** An ordered arrangement of a multiset of strings is unique. */
  lemma {:induction false} OrderedUnique(a: seq<string>, b: seq<string>, descending: bool)
    requires Ordered(a, descending) && Ordered(b, descending)
    requires multiset(a) == multiset(b)
    ensures a == b
  {
    assert |a| == |multiset(a)| == |multiset(b)| == |b|;
    if |a| > 0 {
      OrderedHeads(a, b, descending);
      TailsPermute(a, b);
      assert Ordered(a[1..], descending) && Ordered(b[1..], descending);
      OrderedUnique(a[1..], b[1..], descending);
      assert a == [a[0]] + a[1..] && b == [b[0]] + b[1..];
    }
  }

  /** Sorting sees only which strings there are, not their order: sorting
      an already sorted copy, in either direction, is sorting the original. */
  lemma SortOfPermutation(a: seq<string>, b: seq<string>, descending: bool)
    requires multiset(a) == multiset(b)
    ensures Sort(a, descending) == Sort(b, descending)
  {
    SortSpec(a, descending);
    SortSpec(b, descending);
    OrderedUnique(Sort(a, descending), Sort(b, descending), descending);
  }

  function Reverse(s: seq<string>): (r: seq<string>)
    ensures |r| == |s|
  {
    if |s| == 0 then [] else Reverse(s[1..]) + [s[0]]
  }

  lemma {:induction false} ReverseAt(s: seq<string>, k: int)
    requires 0 <= k < |s|
    ensures Reverse(s)[k] == s[|s| - 1 - k]
  {
    if k < |s| - 1 {
      ReverseAt(s[1..], k);
    }
  }

  lemma {:induction false} ReversePermutes(s: seq<string>)
    ensures multiset(Reverse(s)) == multiset(s)
  {
    if |s| > 0 {
      ReversePermutes(s[1..]);
      assert s == [s[0]] + s[1..];
    }
  }

  /** Reading an ascending list from the back gives the descending order:
      `sorted(s)[::-1] == sorted(s, reverse=True)`. */
  lemma ReverseOfAscending(s: seq<string>)
    ensures Reverse(Sort(s, false)) == Sort(s, true)
  {
    var up := Sort(s, false);
    var r := Reverse(up);
    SortSpec(s, false);
    SortSpec(s, true);
    ReversePermutes(up);
    forall i, j | 0 <= i < j < |r| ensures Before(r[i], r[j], true) {
      ReverseAt(up, i);
      ReverseAt(up, j);
    }
    OrderedUnique(r, Sort(s, true), true);
  }
}
