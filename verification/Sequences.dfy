/** Facts about sequences that several modules need. */
module Sequences {
  lemma Assoc<T>(a: seq<T>, b: seq<T>, c: seq<T>)
    ensures a + b + c == a + (b + c) && a + [] == a
  {
  }

  lemma SplitLength<T>(a: seq<T>, b: seq<T>, c: seq<T>, d: seq<T>, sep: T)
    requires sep !in a && |c| < |a|
    ensures a + [sep] + b != c + [sep] + d
  {
    assert (a + [sep] + b)[|c|] == a[|c|] && (c + [sep] + d)[|c|] == sep;
  }

  /** The first separator is where a sequence splits. */
  lemma SplitAtFirst<T>(a: seq<T>, b: seq<T>, c: seq<T>, d: seq<T>, sep: T)
    requires sep !in a && sep !in c && a + [sep] + b == c + [sep] + d
    ensures a == c && b == d
  {
    if |a| != |c| {
      if |c| < |a| { SplitLength(a, b, c, d, sep); } else { SplitLength(c, d, a, b, sep); }
    }
    var (l, r) := (a + [sep] + b, c + [sep] + d);
    assert a == l[..|a|] && c == r[..|c|];
    assert b == l[|a| + 1..] && d == r[|c| + 1..];
  }

  /** The pieces, one after the other. */
  function Flatten<T>(pieces: seq<seq<T>>): seq<T> {
    if pieces == [] then [] else Flatten(pieces[..|pieces| - 1]) + pieces[|pieces| - 1]
  }

  function Members<T>(s: seq<T>): set<T> {
    set x | x in s
  }

  predicate NoRepeats<T(==)>(s: seq<T>) {
    forall i, j :: 0 <= i < j < |s| ==> s[i] != s[j]
  }

  lemma {:induction false} MembersSize<T>(s: seq<T>)
    requires NoRepeats(s)
    ensures |Members(s)| == |s|
  {
    if s != [] {
      var last := |s| - 1;
      MembersSize(s[..last]);
      assert s[last] !in Members(s[..last]);
      assert Members(s) == Members(s[..last]) + {s[last]};
    }
  }

  lemma {:induction false} Ascending(s: seq<nat>, i: nat, j: nat)
    requires i <= j < |s| && forall q :: 0 < q < |s| ==> s[q - 1] < s[q]
    ensures s[i] <= s[j] && (i < j ==> s[i] < s[j])
  {
    if i < j {
      Ascending(s, i, j - 1);
    }
  }

  /** Among the numbers below `count`, a set of `count` of them is all of them. */
  lemma {:induction false} FullSet(s: set<nat>, count: nat)
    requires forall i :: i in s ==> i < count
    ensures |s| <= count
    ensures |s| == count ==> forall i :: 0 <= i < count ==> i in s
  {
    if count != 0 {
      FullSet(s - {count - 1}, count - 1);
      if count - 1 !in s {
        assert s - {count - 1} == s;
      }
    } else {
      assert s == {};
    }
  }

  lemma {:induction false} BoundedSet(s: set<int>, lo: int, hi: int)
    requires lo <= hi && forall x :: x in s ==> lo <= x < hi
    ensures |s| <= hi - lo
    decreases hi - lo
  {
    if lo < hi {
      BoundedSet(s - {lo}, lo + 1, hi);
    } else {
      assert s == {};
    }
  }

  /** The first occurrences, in order: what a Set keeps of a list. */
  function FirstOf<T(==, !new)>(s: seq<T>): (r: seq<T>)
    ensures NoRepeats(r)
    ensures forall x :: x in r <==> x in s
  {
    if s == [] then []
    else
      var (front, last) := (FirstOf(s[..|s| - 1]), s[|s| - 1]);
      assert s == s[..|s| - 1] + [last];
      if last in front then front else front + [last]
  }

  /** Where an element first stands. */
  ghost function FirstAt<T>(s: seq<T>, x: T): (k: nat)
    requires x in s
    ensures k < |s| && s[k] == x && x !in s[..k]
  {
    if s[0] == x then 0
    else
      assert s == [s[0]] + s[1..];
      var k := 1 + FirstAt(s[1..], x);
      assert s[..k] == [s[0]] + s[1..][..k - 1];
      k
  }

  lemma FirstAtUnique<T>(s: seq<T>, x: T, k: nat)
    requires k < |s| && s[k] == x && x !in s[..k]
    ensures FirstAt(s, x) == k
  {
    var f := FirstAt(s, x);
    assert forall m :: 0 <= m < k ==> s[m] in s[..k];
    assert forall m :: 0 <= m < f ==> s[m] in s[..f];
  }

  lemma FirstAtFront<T>(s: seq<T>, x: T)
    requires s != [] && x in s[..|s| - 1]
    ensures FirstAt(s, x) == FirstAt(s[..|s| - 1], x) < |s| - 1
  {
    var k := FirstAt(s[..|s| - 1], x);
    assert s[..k] == s[..|s| - 1][..k];
    FirstAtUnique(s, x, k);
  }

  /** The elements come in the order of their first appearances. */
  lemma {:induction false} FirstOfInOrder<T(!new)>(s: seq<T>)
    ensures forall i, j :: 0 <= i < j < |FirstOf(s)| ==> FirstAt(s, FirstOf(s)[i]) < FirstAt(s, FirstOf(s)[j])
  {
    if s != [] {
      var (before, r) := (s[..|s| - 1], FirstOf(s));
      FirstOfInOrder(before);
      forall i | 0 <= i < |FirstOf(before)| ensures FirstAt(s, r[i]) == FirstAt(before, r[i]) < |before| {
        FirstAtFront(s, r[i]);
      }
      if s[|s| - 1] !in FirstOf(before) {
        FirstAtUnique(s, s[|s| - 1], |s| - 1);
      }
    }
  }
}
