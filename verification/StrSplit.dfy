/**
 Splitting a string, utils/strings.c (_strsplit): the pieces are cut out of one copy of the string by
 overwriting the first character of each delimiter.
 */
module StrSplit {
  import opened CStrings

  // ----- The pieces

  function Split(s: string, d: string): (ps: seq<string>)
    requires d != ""
    ensures ps != []
    decreases |s|
  {
    var i := FindFrom(s, d, 0);
    if i < 0 then [s] else [s[..i]] + Split(s[i + |d|..], d)
  }

  function Join(ps: seq<string>, d: string): string
    requires ps != []
  {
    if |ps| == 1 then ps[0] else ps[0] + d + Join(ps[1..], d)
  }

  // The pieces, with the delimiter put back between them, make the string.
  lemma {:induction false} SplitJoins(s: string, d: string)
    requires d != ""
    ensures Join(Split(s, d), d) == s
    decreases |s|
  {
    var i := FindFrom(s, d, 0);
    if i >= 0 {
      var rest := Split(s[i + |d|..], d);
      SplitJoins(s[i + |d|..], d);
      assert Split(s, d)[1..] == rest;
      assert s == s[..i] + s[i..i + |d|] + s[i + |d|..];
    }
  }

  lemma OccursInFront(s: string, i: nat, d: string, j: int)
    requires i <= |s| && d != ""
    ensures OccursAt(s[..i], d, j) ==> OccursAt(s, d, j) && j < i
  {
    if OccursAt(s[..i], d, j) {
      assert s[..i][j..j + |d|] == s[j..j + |d|];
    }
  }

  // No piece contains the delimiter.
  lemma {:induction false} PiecesAreFree(s: string, d: string, k: nat)
    requires d != "" && k < |Split(s, d)|
    ensures forall j :: !OccursAt(Split(s, d)[k], d, j)
    decreases |s|
  {
    var i := FindFrom(s, d, 0);
    if i < 0 {
      assert forall j :: OccursAt(s, d, j) ==> j >= 0;
    } else if k == 0 {
      forall j
        ensures !OccursAt(s[..i], d, j)
      {
        OccursInFront(s, i, d, j);
      }
    } else {
      PiecesAreFree(s[i + |d|..], d, k - 1);
    }
  }

  lemma FirstCut(s: string, d: string, i: nat)
    requires d != "" && OccursAt(s, d, i) && forall j :: 0 <= j < i ==> !OccursAt(s, d, j)
    ensures forall j :: OccursAt(s[..i] + d, d, j) ==> j == i
  {
    var e := i + |d|;
    assert s[..i] + d == s[..e];
    forall j | OccursAt(s[..e], d, j)
      ensures j == i
    {
      OccursInFront(s, e, d, j);
    }
  }

  // Each cut is made at the first delimiter.
  lemma {:induction false} CutsAreLeftmost(s: string, d: string, k: nat)
    requires d != "" && k + 1 < |Split(s, d)|
    ensures forall j :: OccursAt(Split(s, d)[k] + d, d, j) ==> j == |Split(s, d)[k]|
    decreases |s|
  {
    var i := FindFrom(s, d, 0);
    if k == 0 {
      FirstCut(s, d, i);
    } else {
      CutsAreLeftmost(s[i + |d|..], d, k - 1);
    }
  }

  // ----- In place

  // The first loop: how many pieces there are.
  method Count(s: string, d: string) returns (nb: nat)
    requires d != ""
    ensures nb == |Split(s, d)|
  {
    nb := 1;
    var rest := s;
    var i := FindFrom(rest, d, 0);
    while i >= 0
      invariant i == FindFrom(rest, d, 0)
      invariant nb + |Split(rest, d)| - 1 == |Split(s, d)|
      decreases |rest|
    {
      SplitCut(rest, d, i);
      rest := rest[i + |d|..];
      nb := nb + 1;
      i := FindFrom(rest, d, 0);
    }
  }

  // One turn of the second loop: cut the string at `at` in front of its first delimiter.
  method CutAt(buf: array<char>, at: nat, i: nat, d: string, ghost rest: string)
    requires CString(buf[..], at, rest) && OccursAt(rest, d, i) && d != ""
    modifies buf
    ensures CString(buf[..], at, rest[..i]) && CString(buf[..], at + i + |d|, rest[i + |d|..])
    ensures forall k :: 0 <= k < at ==> buf[k] == old(buf[k])
  {
    CStringAt(buf[..], at, rest, i + |d|);
    ghost var before := buf[..];
    assert before[at..at + |rest|] == rest;
    buf[at + i] := NUL;
    assert buf[at..at + i] == before[at..at + |rest|][..i];
    assert buf[at + i + |d|..at + |rest|] == before[at..at + |rest|][i + |d|..];
  }

  // The same, with the pieces already cut.
  method CutNext(buf: array<char>, at: nat, i: nat, d: string, ghost rest: string, ghost ptrs: seq<nat>, ghost ps: seq<string>)
    requires CString(buf[..], at, rest) && OccursAt(rest, d, i) && d != "" && Placed(buf[..], ptrs, ps, at)
    modifies buf
    ensures Placed(buf[..], ptrs + [at], ps + [rest[..i]], at + i + |d|)
    ensures CString(buf[..], at + i + |d|, rest[i + |d|..])
  {
    ghost var before := buf[..];
    CutAt(buf, at, i, d, rest);
    PlacedStays(before, buf[..], ptrs, ps, at);
  }

  // strstr in the string at `at`
  method FindNext(buf: array<char>, at: nat, d: string, ghost rest: string) returns (i: int)
    requires CString(buf[..], at, rest)
    ensures i == FindFrom(rest, d, 0)
  {
    var text := Read(buf, at, rest);
    i := FindFrom(text, d, 0);
  }

  lemma Regroup(a: seq<string>, b: seq<string>, c: seq<string>)
    ensures a + (b + c) == a + b + c
  {
  }

  lemma SplitCut(rest: string, d: string, i: nat)
    requires d != "" && i == FindFrom(rest, d, 0)
    ensures Split(rest, d) == [rest[..i]] + Split(rest[i + |d|..], d)
  {
  }

  lemma SplitStep(ps: seq<string>, rest: string, d: string, i: nat, all: seq<string>)
    requires d != "" && i == FindFrom(rest, d, 0) && all == ps + Split(rest, d)
    ensures all == ps + [rest[..i]] + Split(rest[i + |d|..], d)
  {
    SplitCut(rest, d, i);
    Regroup(ps, [rest[..i]], Split(rest[i + |d|..], d));
  }

  // The second loop.
  method CutAll(buf: array<char>, s: string, d: string) returns (ptrs: seq<nat>)
    requires d != "" && CString(buf[..], 0, s) && buf.Length == |s| + 1
    modifies buf
    ensures Placed(buf[..], ptrs, Split(s, d), |s| + 1)
  {
    ghost var ps, rest := [], s;
    var at := 0;
    ptrs := [];
    var i := FindFrom(s, d, 0);
    while i >= 0
      invariant at + |rest| == |s|
      invariant CString(buf[..], at, rest) && i == FindFrom(rest, d, 0)
      invariant Placed(buf[..], ptrs, ps, at)
      invariant ps + Split(rest, d) == Split(s, d)
      decreases |rest|
    {
      SplitStep(ps, rest, d, i, Split(s, d));
      CutNext(buf, at, i, d, rest, ptrs, ps);
      ptrs, ps := ptrs + [at], ps + [rest[..i]];
      at, rest := at + i + |d|, rest[i + |d|..];
      i := FindNext(buf, at, d, rest);
    }
    ptrs := ptrs + [at];
    assert ps + [rest] == Split(s, d);
  }

  // _strsplit: the pieces of `s` lie in the buffer, each terminated, at the returned offsets; when
  // the C allocator has no memory nothing is returned and the count is zero.
  method SplitInPlace(s: string, d: string, memory: bool) returns (buf: array<char>, ptrs: seq<nat>, nb: nat)
    requires d != "" && NUL !in s
    ensures !memory ==> nb == 0 && ptrs == []
    ensures memory ==> nb == |ptrs| && Placed(buf[..], ptrs, Split(s, d), |s| + 1)
  {
    nb := Count(s, d);
    if !memory {
      buf := new char[0];
      return buf, [], 0;
    }
    buf := new char[|s| + 1](i requires 0 <= i => if i < |s| then s[i] else NUL);
    assert buf[0..|s|] == s;
    ptrs := CutAll(buf, s, d);
  }
}
