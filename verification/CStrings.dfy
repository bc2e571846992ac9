/**
 NUL-terminated strings in character buffers, and the C library calls on them that the modelled code
 uses: strlen and strstr.
 */
module CStrings {

  const NUL := '\0'

  predicate OccursAt(s: string, w: string, i: int) {
    0 <= i && i + |w| <= |s| && s[i..i + |w|] == w
  }

  // strstr: the first occurrence at or after `from`, or -1.
  function FindFrom(s: string, w: string, from: nat): (i: int)
    requires from <= |s|
    ensures i >= 0 ==> from <= i && OccursAt(s, w, i)
    ensures forall j :: from <= j && (i < 0 || j < i) ==> !OccursAt(s, w, j)
    decreases |s| - from
  {
    if OccursAt(s, w, from) then from
    else if from == |s| then -1
    else FindFrom(s, w, from + 1)
  }

  // The NUL-terminated string that starts at `at` is `s`.
  ghost predicate CString(buf: seq<char>, at: nat, s: string) {
    && at + |s| < |buf|
    && buf[at..at + |s|] == s && buf[at + |s|] == NUL
    && NUL !in s
  }

  lemma CStringAt(buf: seq<char>, at: nat, s: string, k: nat)
    requires CString(buf, at, s) && k <= |s|
    ensures CString(buf, at + k, s[k..])
    ensures buf[at + k] == if k < |s| then s[k] else NUL
  {
    assert buf[at + k..at + |s|] == s[k..];
    assert k < |s| ==> buf[at..at + |s|][k] == buf[at + k];
  }

  // strlen
  method Length(buf: array<char>, at: nat, ghost s: string) returns (n: nat)
    requires CString(buf[..], at, s)
    ensures n == |s|
  {
    n := 0;
    assert forall i :: 0 <= i < |s| ==> s[i] != NUL;
    CStringAt(buf[..], at, s, 0);
    while buf[at + n] != NUL
      invariant n <= |s|
      invariant buf[at + n] == if n < |s| then s[n] else NUL
      decreases |s| - n
    {
      n := n + 1;
      CStringAt(buf[..], at, s, n);
    }
  }

  // The strings `ps` lie in the buffer, each terminated, at `ptrs`, all in front of `end`.
  ghost predicate Placed(buf: seq<char>, ptrs: seq<nat>, ps: seq<string>, end: nat) {
    && |ptrs| == |ps|
    && forall k :: 0 <= k < |ps| ==> CString(buf, ptrs[k], ps[k]) && ptrs[k] + |ps[k]| < end
  }

  lemma SliceStays(before: seq<char>, after: seq<char>, end: nat, a: nat, b: nat)
    requires a <= b < end <= |before| && |after| == |before| && after[..end] == before[..end]
    ensures after[a..b] == before[a..b] && after[b] == before[b]
  {
    assert forall k :: 0 <= k < end ==> after[..end][k] == after[k] && before[..end][k] == before[k];
  }

  lemma PlacedStays(before: seq<char>, after: seq<char>, ptrs: seq<nat>, ps: seq<string>, end: nat)
    requires Placed(before, ptrs, ps, end) && |after| == |before| && end <= |before| && after[..end] == before[..end]
    ensures Placed(after, ptrs, ps, end)
  {
    forall k | 0 <= k < |ps|
      ensures CString(after, ptrs[k], ps[k])
    {
      SliceStays(before, after, end, ptrs[k], ptrs[k] + |ps[k]|);
    }
  }

  // The characters in front of the terminator.
  method Read(buf: array<char>, at: nat, ghost s: string) returns (r: string)
    requires CString(buf[..], at, s)
    ensures r == s
  {
    var n := Length(buf, at, s);
    r := buf[at..at + n];
  }
}
