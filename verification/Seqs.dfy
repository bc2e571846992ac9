/**
 Lists as sequences: taking an element out, putting one in.
 */
module Seqs {

  function Remove<T>(s: seq<T>, i: nat): (r: seq<T>)
    requires i < |s|
    ensures |r| == |s| - 1
    ensures forall j :: 0 <= j < |r| ==> r[j] == s[if j < i then j else j + 1]
  {
    s[..i] + s[i + 1..]
  }

  function Insert<T>(s: seq<T>, c: nat, x: T): (r: seq<T>)
    requires c <= |s|
    ensures |r| == |s| + 1
    ensures forall i :: 0 <= i < |r| ==> r[i] == if i < c then s[i] else if i == c then x else s[i - 1]
  {
    s[..c] + [x] + s[c..]
  }

  ghost predicate Distinct<T>(s: seq<T>) {
    forall i, j :: 0 <= i < j < |s| ==> s[i] != s[j]
  }

  lemma RemoveDistinct<T>(s: seq<T>, i: nat)
    requires i < |s| && Distinct(s)
    ensures Distinct(Remove(s, i)) && s[i] !in Remove(s, i)
    ensures forall x :: x in Remove(s, i) <==> x in s && x != s[i]
  {
    assert s == s[..i] + [s[i]] + s[i + 1..];
  }

  lemma InsertDistinct<T>(s: seq<T>, c: nat, x: T)
    requires c <= |s| && Distinct(s) && x !in s
    ensures Distinct(Insert(s, c, x))
  {
  }

  lemma InsertMembers<T>(s: seq<T>, c: nat, x: T)
    requires c <= |s|
    ensures forall y :: y in Insert(s, c, x) <==> y == x || y in s
  {
    assert s == s[..c] + s[c..];
  }

  lemma SubsetCard<T>(a: set<T>, b: set<T>)
    requires a <= b && |a| == |b|
    ensures a == b
  {
    if a != b {
      var x :| x in b && x !in a;
      assert a <= b - {x};
      SubsetCardLe(a, b - {x});
    }
  }

  lemma {:induction false} SubsetCardLe<T>(a: set<T>, b: set<T>)
    requires a <= b
    ensures |a| <= |b|
  {
    if a != {} {
      var x :| x in a;
      SubsetCardLe(a - {x}, b - {x});
    }
  }

  lemma {:induction false} SetOfSeq<T>(s: seq<T>)
    ensures |set x | x in s| <= |s|
  {
    if s != [] {
      SetOfSeq(s[1..]);
      assert (set x | x in s) == {s[0]} + (set x | x in s[1..]);
    }
  }
}
