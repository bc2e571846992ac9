/**
 The wildcard patterns of utils/simple_pattern.c: a parser that cuts a pattern into a chain of
 prefix, substring and suffix pieces, and a matcher that takes the leftmost occurrence of each.
 The meaning of a pattern is given independently, by putting some text in place of each asterisk.
 */
module SimplePattern {
  import opened CStrings

  datatype Mode = Exact | Prefix | Suffix | Substring

  datatype Chain = Nil | Node(text: string, mode: Mode, child: Chain)

  const STAR := '*'

  // ----- What a pattern means

  function Stars(p: string): nat {
    if p == "" then 0 else (if p[0] == STAR then 1 else 0) + Stars(p[1..])
  }

  // The pattern with the asterisks replaced, in order, by `fills`.
  function Expand(p: string, fills: seq<string>): string
    requires |fills| == Stars(p)
  {
    if p == "" then ""
    else if p[0] == STAR then fills[0] + Expand(p[1..], fills[1..])
    else [p[0]] + Expand(p[1..], fills)
  }

  // Some text in place of each asterisk makes the pattern equal to the string.
  ghost predicate Means(p: string, s: string) {
    exists fills: seq<string> :: |fills| == Stars(p) && Expand(p, fills) == s
  }

  // The same, one pattern character at a time.
  ghost predicate Glob(p: string, s: string)
    decreases |p|
  {
    if p == "" then s == ""
    else if p[0] == STAR then exists k :: 0 <= k <= |s| && Glob(p[1..], s[k..])
    else s != "" && s[0] == p[0] && Glob(p[1..], s[1..])
  }

  lemma {:induction false} GlobGivesFills(p: string, s: string) returns (fills: seq<string>)
    requires Glob(p, s)
    ensures |fills| == Stars(p) && Expand(p, fills) == s
    decreases |p|
  {
    if p == "" {
      fills := [];
    } else if p[0] == STAR {
      var k :| 0 <= k <= |s| && Glob(p[1..], s[k..]);
      var rest := GlobGivesFills(p[1..], s[k..]);
      fills := [s[..k]] + rest;
      assert fills[1..] == rest;
    } else {
      fills := GlobGivesFills(p[1..], s[1..]);
    }
  }

  lemma {:induction false} FillsGiveGlob(p: string, fills: seq<string>)
    requires |fills| == Stars(p)
    ensures Glob(p, Expand(p, fills))
    decreases |p|
  {
    if p == "" {
    } else if p[0] == STAR {
      FillsGiveGlob(p[1..], fills[1..]);
      assert Expand(p, fills)[|fills[0]|..] == Expand(p[1..], fills[1..]);
    } else {
      FillsGiveGlob(p[1..], fills);
      assert Expand(p, fills)[1..] == Expand(p[1..], fills);
    }
  }

  lemma GlobIsMeaning(p: string, s: string)
    ensures Glob(p, s) <==> Means(p, s)
  {
    if Glob(p, s) {
      var fills := GlobGivesFills(p, s);
    }
    if Means(p, s) {
      var fills: seq<string> :| |fills| == Stars(p) && Expand(p, fills) == s;
      FillsGiveGlob(p, fills);
    }
  }

  // ----- The parser

  function Leading(s: string): (k: nat)
    ensures k <= |s| && (forall i :: 0 <= i < k ==> s[i] == STAR) && (k < |s| ==> s[k] != STAR)
  {
    if s == "" || s[0] != STAR then 0 else 1 + Leading(s[1..])
  }

  function NextStar(s: string, k: nat): (n: nat)
    requires k <= |s|
    ensures k <= n <= |s| && (forall i :: k <= i < n ==> s[i] != STAR) && (n < |s| ==> s[n] == STAR)
    decreases |s| - k
  {
    if k == |s| || s[k] == STAR then k else NextStar(s, k + 1)
  }

  // Where the first piece ends: the first asterisk after the leading ones.
  function Cut(s: string): (n: nat)
    ensures n <= |s| && (s != "" ==> n >= 1)
  {
    NextStar(s, Leading(s))
  }

  predicate HasChild(s: string) {
    Cut(s) + 1 < |s|
  }

  function Piece(s: string): string {
    if HasChild(s) then s[..Cut(s) + 1] else s
  }

  // A piece with its outer asterisks taken off, and the mode they stand for.
  function Trimmed(t: string, default: Mode): (string, Mode) {
    var last := |t| - 1;
    if |t| >= 2 && t[0] == STAR && t[last] == STAR then (t[1..last], Substring)
    else if |t| >= 1 && t[0] == STAR then (t[1..], Suffix)
    else if |t| >= 1 && t[last] == STAR then (t[..last], Prefix)
    else (t, default)
  }

  function Shape(t: string, default: Mode, child: Chain): Chain {
    var (text, mode) := Trimmed(t, default);
    if text == "" then Node("", Substring, child) else Node(text, mode, child)
  }

  function Parse(s: string, default: Mode): (m: Chain)
    ensures m.Node?
    decreases |s|
  {
    Shape(Piece(s), default, if HasChild(s) then Parse(s[Cut(s)..], default) else Nil)
  }

  // ----- The matcher

  predicate Match(m: Chain, s: string)
    requires m.Node?
  {
    |m.text| <= |s| &&
    match m.mode
    case Substring =>
      m.text == "" ||
      (var i := FindFrom(s, m.text, 0);
       i >= 0 && (m.child.Nil? || Match(m.child, s[i + |m.text|..])))
    case Prefix => OccursAt(s, m.text, 0) && (m.child.Nil? || Match(m.child, s[|m.text|..]))
    case Suffix => OccursAt(s, m.text, |s| - |m.text|) && m.child.Nil?
    case Exact => s == m.text && m.child.Nil?
  }

  // ----- Greedy matching is right exactly for clean patterns

  // Two asterisks stand side by side only at the very end, if at all.
  ghost predicate Clean(p: string) {
    forall i :: Adjacent(p, i) ==> i + 2 == |p|
  }

  predicate Adjacent(p: string, i: int) {
    0 <= i && i + 1 < |p| && p[i] == STAR && p[i + 1] == STAR
  }

  lemma CleanTail(p: string, n: nat)
    requires n <= |p| && Clean(p)
    ensures Clean(p[n..])
  {
    forall i | Adjacent(p[n..], i)
      ensures i + 2 == |p[n..]|
    {
      assert Adjacent(p, n + i);
    }
  }

  // A literal in front of a pattern.
  lemma {:induction false} GlobLiteral(w: string, q: string, s: string)
    requires forall i :: 0 <= i < |w| ==> w[i] != STAR
    ensures Glob(w + q, s) <==> OccursAt(s, w, 0) && Glob(q, s[|w|..])
    decreases |w|
  {
    if w == "" {
      assert w + q == q && s[0..] == s;
    } else {
      assert (w + q)[1..] == w[1..] + q;
      if s != "" {
        GlobLiteral(w[1..], q, s[1..]);
        assert |w| <= |s| ==> s[..|w|] == [s[0]] + s[1..][..|w| - 1];
        assert w == [w[0]] + w[1..];
        assert |w| <= |s| ==> s[1..][|w| - 1..] == s[|w|..];
      }
    }
  }

  // After an asterisk, matching a suffix of the text is enough.
  lemma StarAbsorbs(q: string, s: string, j: nat)
    requires q != "" && q[0] == STAR && j <= |s| && Glob(q, s[j..])
    ensures Glob(q, s)
  {
    var k :| 0 <= k <= |s[j..]| && Glob(q[1..], s[j..][k..]);
    assert s[j..][k..] == s[j + k..];
  }

  lemma LiteralAt(w: string, q: string, s: string, k: nat)
    requires k <= |s| && forall i :: 0 <= i < |w| ==> w[i] != STAR
    ensures Glob(w + q, s[k..]) <==> OccursAt(s, w, k) && Glob(q, s[k + |w|..])
  {
    GlobLiteral(w, q, s[k..]);
    if k + |w| <= |s| {
      assert s[k..][..|w|] == s[k..k + |w|];
      assert s[k..][|w|..] == s[k + |w|..];
    }
  }

  lemma StarLiteral(w: string, q: string, s: string)
    requires forall i :: 0 <= i < |w| ==> w[i] != STAR
    ensures Glob([STAR] + w + q, s) <==> exists k :: OccursAt(s, w, k) && Glob(q, s[k + |w|..])
  {
    var p := [STAR] + w + q;
    assert p[1..] == w + q;
    if k :| OccursAt(s, w, k) && Glob(q, s[k + |w|..]) {
      LiteralAt(w, q, s, k);
      assert Glob(p[1..], s[k..]);
    }
    if Glob(p, s) {
      var k :| 0 <= k <= |s| && Glob(p[1..], s[k..]);
      LiteralAt(w, q, s, k);
    }
  }

  lemma EverythingGlob(p: string, s: string)
    requires p == [STAR] || p == [STAR, STAR]
    ensures Glob(p, s)
  {
    assert s[|s|..] == "" && Glob("", s[|s|..]);
    assert [STAR][1..] == "" && Glob([STAR], s);
    assert [STAR, STAR][1..] == [STAR] && s[0..] == s;
  }

  // The text of a star-led clean pattern between its first two asterisks, and the rest.
  lemma CleanSplit(p: string)
    requires p != "" && p[0] == STAR && Clean(p) && p != [STAR] && p != [STAR, STAR]
    ensures Leading(p) == 1 && Cut(p) >= 2 && p == [STAR] + p[1..Cut(p)] + p[Cut(p)..]
    ensures forall i :: 0 <= i < Cut(p) - 1 ==> p[1..Cut(p)][i] != STAR
    ensures Clean(p[Cut(p)..])
  {
    assert |p| >= 2;
    assert p == [p[0]] + p[1..];
    assert !Adjacent(p, 0);
    CleanTail(p, Cut(p));
  }

  // What the first occurrence of a literal decides, any occurrence decides.
  lemma GreedyIsEnough(w: string, q: string, s: string)
    requires q != "" && q[0] == STAR
    ensures (exists k :: OccursAt(s, w, k) && Glob(q, s[k + |w|..])) <==>
            var i := FindFrom(s, w, 0); i >= 0 && Glob(q, s[i + |w|..])
  {
    var i := FindFrom(s, w, 0);
    if k :| OccursAt(s, w, k) && Glob(q, s[k + |w|..]) {
      assert 0 <= i <= k;
      var t := s[i + |w|..];
      assert t[k - i..] == s[k + |w|..];
      StarAbsorbs(q, t, k - i);
    }
  }

  predicate Literal(w: string) {
    w != "" && forall i :: 0 <= i < |w| ==> w[i] != STAR
  }

  lemma ShapeOf(w: string, default: Mode, child: Chain)
    requires Literal(w)
    ensures Shape([STAR] + w + [STAR], default, child) == Node(w, Substring, child)
    ensures Shape([STAR] + w, default, child) == Node(w, Suffix, child)
    ensures Shape(w + [STAR], default, child) == Node(w, Prefix, child)
    ensures Shape(w, default, child) == Node(w, default, child)
  {
    assert ([STAR] + w + [STAR])[1..|w| + 1] == w;
    assert ([STAR] + w)[1..] == w && ([STAR] + w)[|w|] == w[|w| - 1];
    assert (w + [STAR])[..|w|] == w;
  }

  // The chain of a star-led clean pattern: its first literal, then the chain of the rest.
  lemma ParseStarred(p: string, default: Mode)
    requires p != "" && p[0] == STAR && Clean(p) && p != [STAR] && p != [STAR, STAR]
    ensures var n := Cut(p);
            && n >= 2 && Literal(p[1..n]) && p == [STAR] + p[1..n] + p[n..] && Clean(p[n..])
            && (n == |p| ==> Parse(p, default) == Node(p[1..n], Suffix, Nil))
            && (n + 1 == |p| ==> p[n..] == [STAR] && Parse(p, default) == Node(p[1..n], Substring, Nil))
            && (n + 1 < |p| ==> p[n] == STAR && Parse(p, default) == Node(p[1..n], Substring, Parse(p[n..], default)))
  {
    CleanSplit(p);
    var n := Cut(p);
    var w := p[1..n];
    var child := if HasChild(p) then Parse(p[n..], default) else Nil;
    assert Parse(p, default) == Shape(Piece(p), default, child);
    ShapeOf(w, default, child);
    assert Piece(p) == if n == |p| then [STAR] + w else [STAR] + w + [STAR];
  }

  lemma ParseStars(p: string, default: Mode)
    requires p == [STAR] || p == [STAR, STAR]
    ensures Parse(p, default) == Node("", Substring, Nil)
  {
    assert Leading(p) == |p|;
    assert !HasChild(p);
  }

  lemma MatchSubstring(w: string, child: Chain, s: string)
    requires Literal(w)
    ensures Match(Node(w, Substring, child), s) <==>
            var i := FindFrom(s, w, 0); i >= 0 && (child.Nil? || Match(child, s[i + |w|..]))
  {
  }

  // A substring node with the right rest is right.
  lemma SubstringRight(w: string, q: string, child: Chain, s: string)
    requires Literal(w) && q != "" && q[0] == STAR
    requires var i := FindFrom(s, w, 0);
             i >= 0 ==> (Glob(q, s[i + |w|..]) <==> child.Nil? || Match(child, s[i + |w|..]))
    ensures Match(Node(w, Substring, child), s) <==> Glob([STAR] + w + q, s)
  {
    MatchSubstring(w, child, s);
    assert Glob([STAR] + w + q, s) <==> exists k :: OccursAt(s, w, k) && Glob(q, s[k + |w|..]) by {
      StarLiteral(w, q, s);
    }
    GreedyIsEnough(w, q, s);
  }

  lemma SuffixRight(w: string, s: string)
    requires Literal(w)
    ensures Match(Node(w, Suffix, Nil), s) <==> Glob([STAR] + w, s)
  {
    StarLiteral(w, "", s);
    assert [STAR] + w + "" == [STAR] + w;
    assert forall k :: OccursAt(s, w, k) ==> (Glob("", s[k + |w|..]) <==> k == |s| - |w|);
  }

  lemma OnlyStarsRight(p: string, default: Mode, s: string)
    requires p == [STAR] || p == [STAR, STAR]
    ensures Match(Parse(p, default), s) <==> Glob(p, s)
  {
    EverythingGlob(p, s);
    ParseStars(p, default);
  }

  // A star-led clean pattern with one literal.
  lemma OneLiteralRight(p: string, default: Mode, s: string)
    requires p != "" && p[0] == STAR && Clean(p) && p != [STAR] && p != [STAR, STAR] && !HasChild(p)
    ensures Match(Parse(p, default), s) <==> Glob(p, s)
  {
    ParseStarred(p, default);
    var n := Cut(p);
    var w, q := p[1..n], p[n..];
    if n == |p| {
      assert p == [STAR] + w;
      SuffixRight(w, s);
    } else {
      var i := FindFrom(s, w, 0);
      if i >= 0 { EverythingGlob(q, s[i + |w|..]); }
      SubstringRight(w, q, Nil, s);
    }
  }

  // One with more literals: the first and the rest.
  lemma SplitStarred(p: string, default: Mode) returns (w: string, q: string)
    requires p != "" && p[0] == STAR && Clean(p) && p != [STAR] && p != [STAR, STAR] && HasChild(p)
    ensures Literal(w) && q != "" && q[0] == STAR && Clean(q) && p == [STAR] + w + q
    ensures Parse(p, default) == Node(w, Substring, Parse(q, default))
  {
    ParseStarred(p, default);
    var n := Cut(p);
    w, q := p[1..n], p[n..];
  }

  lemma {:induction false} MoreLiteralsRight(w: string, q: string, default: Mode, s: string, child: Chain)
    requires Literal(w) && q != "" && q[0] == STAR && Clean(q) && child == Parse(q, default)
    ensures Match(Node(w, Substring, child), s) <==> Glob([STAR] + w + q, s)
    decreases |q|, 1
  {
    var i := FindFrom(s, w, 0);
    if i >= 0 {
      StarredRight(q, default, s[i + |w|..]);
    }
    SubstringRight(w, q, child, s);
  }

  // A star-led clean pattern, parsed, accepts what it means.
  lemma {:induction false} StarredRight(p: string, default: Mode, s: string)
    requires p != "" && p[0] == STAR && Clean(p)
    ensures Match(Parse(p, default), s) <==> Glob(p, s)
    decreases |p|, 0
  {
    if p == [STAR] || p == [STAR, STAR] {
      OnlyStarsRight(p, default, s);
    } else if !HasChild(p) {
      OneLiteralRight(p, default, s);
    } else {
      var w, q := SplitStarred(p, default);
      MoreLiteralsRight(w, q, default, s, Parse(q, default));
    }
  }

  // What a pattern without asterisks stands for under each default mode.
  function Defaulted(p: string, default: Mode): string {
    if STAR in p then p
    else match default
      case Exact => p
      case Prefix => p + [STAR]
      case Suffix => [STAR] + p
      case Substring => [STAR] + p + [STAR]
  }

  lemma ParseUnstarred(p: string, default: Mode)
    requires p != "" && STAR !in p
    ensures Parse(p, default) == Node(p, default, Nil)
  {
    assert Leading(p) == 0 && Cut(p) == |p|;
  }

  lemma PrefixGlob(w: string, s: string)
    requires STAR !in w
    ensures Glob(w + [STAR], s) <==> OccursAt(s, w, 0)
  {
    GlobLiteral(w, [STAR], s);
    if OccursAt(s, w, 0) {
      EverythingGlob([STAR], s[|w|..]);
    }
  }

  lemma UnstarredRight(p: string, default: Mode, s: string)
    requires p != "" && STAR !in p
    ensures Match(Parse(p, default), s) <==> Glob(Defaulted(p, default), s)
  {
    ParseUnstarred(p, default);
    match default {
      case Exact =>
        GlobLiteral(p, "", s);
        assert p + "" == p;
        assert |p| <= |s| ==> s == s[..|p|] + s[|p|..];
      case Prefix => PrefixGlob(p, s);
      case Suffix => SuffixRight(p, s);
      case Substring =>
        StarLiteral(p, [STAR], s);
        GreedyIsEnough(p, [STAR], s);
        if FindFrom(s, p, 0) >= 0 {
          EverythingGlob([STAR], s[FindFrom(s, p, 0) + |p|..]);
        }
    }
  }

  lemma PrefixSplit(p: string)
    requires p != "" && p[0] != STAR && STAR in p && Clean(p)
    ensures var n := Cut(p);
            && 1 <= n < |p| && Literal(p[..n]) && p == p[..n] + p[n..] && p[n] == STAR && Clean(p[n..])
            && Piece(p) == p[..n] + [STAR]
  {
    var n := Cut(p);
    assert Leading(p) == 0;
    var i :| 0 <= i < |p| && p[i] == STAR;
    assert n <= i;
    CleanTail(p, n);
    assert p[..n + 1] == p[..n] + [STAR];
  }

  lemma ParsePrefixed(p: string, default: Mode)
    requires p != "" && p[0] != STAR && STAR in p && Clean(p)
    ensures var n := Cut(p);
            Parse(p, default) == Node(p[..n], Prefix, if n + 1 < |p| then Parse(p[n..], default) else Nil)
  {
    PrefixSplit(p);
    var n := Cut(p);
    var child := if HasChild(p) then Parse(p[n..], default) else Nil;
    ShapeOf(p[..n], default, child);
    assert Parse(p, default) == Shape(Piece(p), default, child);
  }

  lemma PrefixRight(p: string, default: Mode, s: string)
    requires p != "" && p[0] != STAR && STAR in p && Clean(p)
    ensures Match(Parse(p, default), s) <==> Glob(p, s)
  {
    PrefixSplit(p);
    ParsePrefixed(p, default);
    var n := Cut(p);
    var w, q := p[..n], p[n..];
    GlobLiteral(w, q, s);
    if OccursAt(s, w, 0) {
      if n + 1 == |p| {
        assert q == [STAR];
        EverythingGlob(q, s[n..]);
      } else {
        StarredRight(q, default, s[n..]);
      }
    }
  }

  // Greedy matching accepts exactly the strings a clean pattern means.
  lemma CleanRight(p: string, default: Mode, s: string)
    requires p != "" && Clean(p)
    ensures Match(Parse(p, default), s) <==> Means(Defaulted(p, default), s)
  {
    GlobIsMeaning(Defaulted(p, default), s);
    if STAR !in p {
      UnstarredRight(p, default, s);
    } else if p[0] == STAR {
      StarredRight(p, default, s);
    } else {
      PrefixRight(p, default, s);
    }
  }

  // Some literal of the chain contains an asterisk.
  predicate StarInside(m: Chain) {
    m.Node? && (STAR in m.text || StarInside(m.child))
  }

  // Only the last node of the chain can have an empty literal.
  predicate Tight(m: Chain) {
    m.Node? ==> (m.text == "" ==> m.child.Nil?) && Tight(m.child)
  }

  lemma {:induction false} ParseTight(p: string, default: Mode)
    ensures Tight(Parse(p, default))
    decreases |p|
  {
    if HasChild(p) {
      ParseTight(p[Cut(p)..], default);
      assert Leading(p) < Cut(p);
      assert Piece(p)[Leading(p)] != STAR;
    }
  }

  lemma OccursInside(s: string, w: string, i: int)
    requires OccursAt(s, w, i)
    ensures STAR in w ==> STAR in s
  {
    assert forall k :: 0 <= k < |w| ==> s[i + k] == s[i..i + |w|][k] == w[k];
  }

  // A string without asterisks is only accepted by chains without.
  lemma {:induction false} AcceptsNoStar(m: Chain, s: string)
    requires m.Node? && Match(m, s) && STAR !in s && Tight(m)
    ensures !StarInside(m)
  {
    if m.text != "" {
      match m.mode {
        case Substring =>
          var i := FindFrom(s, m.text, 0);
          OccursInside(s, m.text, i);
          if m.child.Node? { AcceptsNoStar(m.child, s[i + |m.text|..]); }
        case Prefix =>
          OccursInside(s, m.text, 0);
          if m.child.Node? { AcceptsNoStar(m.child, s[|m.text|..]); }
        case Suffix =>
          OccursInside(s, m.text, |s| - |m.text|);
        case Exact =>
      }
    }
  }

  // Adjacent asterisks that are not at the end put an asterisk into a literal.
  lemma {:induction false} DirtyStarInside(p: string, default: Mode)
    requires !Clean(p)
    ensures StarInside(Parse(p, default))
    decreases |p|
  {
    var i :| Adjacent(p, i) && i + 2 != |p|;
    var k, n := Leading(p), Cut(p);
    if k >= 2 {
      LeadingStarInside(p, default);
    } else {
      assert n <= i;
      var q := p[n..];
      assert Adjacent(q, i - n);
      assert !Clean(q);
      DirtyStarInside(q, default);
    }
  }

  lemma LeadingStarInside(p: string, default: Mode)
    requires Leading(p) >= 2 && |p| >= 3
    ensures STAR in Parse(p, default).text
  {
    var t := Piece(p);
    assert |t| >= 3 && t[0] == STAR && t[1] == STAR;
    assert t[1..|t| - 1][0] == STAR && t[1..][0] == STAR;
  }

  // The pattern with its asterisks deleted.
  function Strip(p: string): (s: string)
    ensures STAR !in s
  {
    if p == "" then "" else (if p[0] == STAR then "" else [p[0]]) + Strip(p[1..])
  }

  lemma {:induction false} StripMeant(p: string)
    ensures Glob(p, Strip(p))
    decreases |p|
  {
    if p != "" {
      StripMeant(p[1..]);
      if p[0] == STAR {
        assert Strip(p)[0..] == Strip(p[1..]);
      } else {
        assert Strip(p)[1..] == Strip(p[1..]);
      }
    }
  }

  // An unclean pattern rejects its own text without asterisks, although it means it.
  lemma DirtyWrong(p: string, default: Mode)
    requires !Clean(p)
    ensures STAR in p && Means(p, Strip(p)) && !Match(Parse(p, default), Strip(p))
  {
    var i :| Adjacent(p, i);
    assert p[i] in p;
    StripMeant(p);
    GlobIsMeaning(p, Strip(p));
    DirtyStarInside(p, default);
    ParseTight(p, default);
    if Match(Parse(p, default), Strip(p)) {
      AcceptsNoStar(Parse(p, default), Strip(p));
    }
  }

  // The parsed pattern and the written one agree on every string exactly when the pattern is clean.
  lemma RightExactlyWhenClean(p: string, default: Mode)
    requires p != ""
    ensures (forall s :: Match(Parse(p, default), s) <==> Means(Defaulted(p, default), s)) <==> Clean(p)
  {
    if Clean(p) {
      forall s
        ensures Match(Parse(p, default), s) <==> Means(Defaulted(p, default), s)
      {
        CleanRight(p, default, s);
      }
    } else {
      DirtyWrong(p, default);
    }
  }

  // The smallest pattern that goes wrong: the second asterisk becomes literal text.
  lemma DoubledStarGoesWrong()
    ensures Means("a**b", "ab") && !Match(Parse("a**b", Exact), "ab")
  {
    assert Adjacent("a**b", 1);
    DirtyWrong("a**b", Exact);
    assert "a**b"[1..] == "**b" && "**b"[1..] == "*b" && "*b"[1..] == "b" && "b"[1..] == "";
    assert Strip("b") == "b" && Strip("*b") == "b" && Strip("**b") == "b" && Strip("a**b") == "ab";
  }

  // ----- The parser in place

  // The two scanning loops: where the first piece ends.
  method FindCut(buf: array<char>, at: nat, ghost s: string) returns (c: nat)
    requires CString(buf[..], at, s)
    ensures c == at + Cut(s)
  {
    ghost var k := 0;
    c := at;
    CStringAt(buf[..], at, s, 0);
    while buf[c] == STAR
      invariant k <= |s| && c == at + k
      invariant forall i :: 0 <= i < k ==> s[i] == STAR
      invariant buf[c] == if k < |s| then s[k] else NUL
      decreases |s| - k
    {
      c, k := c + 1, k + 1;
      CStringAt(buf[..], at, s, k);
    }
    assert k == Leading(s);
    while buf[c] != NUL && buf[c] != STAR
      invariant k <= |s| && c == at + k && k >= Leading(s)
      invariant forall i :: Leading(s) <= i < k ==> s[i] != STAR
      invariant buf[c] == if k < |s| then s[k] else NUL
      decreases |s| - k
    {
      assert s[k] != NUL;
      c, k := c + 1, k + 1;
      CStringAt(buf[..], at, s, k);
    }
    assert k < |s| ==> s[k] in s;
  }

  // __parse_pattern: the chain is read off the buffer while terminators are written into it.  Nothing
  // in front of the pattern changes, nor does its own leading asterisk.
  method ParsePattern(buf: array<char>, at: nat, default: Mode, ghost s: string) returns (m: Chain)
    requires CString(buf[..], at, s)
    modifies buf
    ensures m == Parse(s, default)
    ensures forall i :: 0 <= i < at ==> buf[i] == old(buf[i])
    ensures s != "" && s[0] == STAR ==> buf[at] == STAR
    decreases |s|, 1
  {
    var c := FindCut(buf, at, s);
    var child := ParseRest(buf, at, c, default, s);
    ParseIs(s, default, child);
    var from, to, mode := Trim(buf, at, default, Piece(s));
    if buf[from] != NUL {
      m := Node(buf[from..to], mode, child);
    } else {
      m := Node("", Substring, child);
    }
  }

  lemma ParseIs(s: string, default: Mode, child: Chain)
    requires child == if HasChild(s) then Parse(s[Cut(s)..], default) else Nil
    ensures Parse(s, default) == Shape(Piece(s), default, child)
  {
  }

  // Parse what follows the first piece, which ends at `c`, and cut it off.
  method ParseRest(buf: array<char>, at: nat, c: nat, default: Mode, ghost s: string) returns (child: Chain)
    requires CString(buf[..], at, s) && c == at + Cut(s)
    modifies buf
    ensures HasChild(s) ==> child == Parse(s[Cut(s)..], default)
    ensures !HasChild(s) ==> child == Nil
    ensures CString(buf[..], at, Piece(s))
    ensures forall i :: 0 <= i < at ==> buf[i] == old(buf[i])
    decreases |s|, 0
  {
    var more := Continues(buf, at, c, s);
    if !more {
      return Nil;
    }
    CStringAt(buf[..], at, s, Cut(s));
    ghost var before, rest := buf[..], s[Cut(s)..];
    child := ParsePattern(buf, c, default, rest);
    CutOff(buf, at, c, before, s);
  }

  method CutOff(buf: array<char>, at: nat, c: nat, ghost before: seq<char>, ghost s: string)
    requires |before| == buf.Length && CString(before, at, s) && HasChild(s) && c == at + Cut(s) && buf[c] == STAR
    requires forall i :: 0 <= i < c ==> buf[i] == before[i]
    modifies buf
    ensures CString(buf[..], at, Piece(s))
    ensures forall i :: 0 <= i < buf.Length && i != c + 1 ==> buf[i] == old(buf[i])
  {
    buf[c + 1] := NUL;
    PieceLeft(before, buf[..], at, s);
  }

  // Is there an asterisk at `c` with something behind it?
  method Continues(buf: array<char>, at: nat, c: nat, ghost s: string) returns (more: bool)
    requires CString(buf[..], at, s) && c == at + Cut(s)
    ensures more == HasChild(s)
    ensures more ==> s[Cut(s)] == STAR
  {
    ghost var n := Cut(s);
    assert forall i :: 0 <= i < |s| ==> s[i] != NUL;
    CStringAt(buf[..], at, s, n);
    if buf[c] != STAR {
      return false;
    }
    CStringAt(buf[..], at, s, n + 1);
    more := buf[c + 1] != NUL;
  }

  // What is left of the pattern once the rest has been parsed and cut off.
  lemma PieceLeft(before: seq<char>, after: seq<char>, at: nat, s: string)
    requires CString(before, at, s) && HasChild(s) && |after| == |before|
    requires (forall i :: 0 <= i < at + Cut(s) ==> after[i] == before[i]) && after[at + Cut(s)] == STAR && after[at + Cut(s) + 1] == NUL
    ensures CString(after, at, Piece(s))
  {
    var n := Cut(s);
    assert s[..n] == before[at..at + n] == after[at..at + n];
    assert s[..n + 1] == s[..n] + [STAR];
    assert after[at..at + n + 1] == after[at..at + n] + [STAR];
  }

  // Where the trimmed piece lies in the buffer.
  method Trim(buf: array<char>, at: nat, default: Mode, ghost t: string) returns (from: nat, to: nat, mode: Mode)
    requires CString(buf[..], at, t)
    modifies buf
    ensures at <= from <= to < buf.Length && (buf[from..to], mode) == Trimmed(t, default)
    ensures buf[from] == NUL <==> from == to
    ensures forall i :: 0 <= i < at ==> buf[i] == old(buf[i])
    ensures t != "" && t[0] == STAR ==> buf[at] == STAR
  {
    var len := Length(buf, at, t);
    from, to, mode := at, at + len, default;
    assert buf[at..at + len] == t;
    assert forall i :: 0 <= i < len ==> buf[at + i] == t[i] && t[i] != NUL;
    if len >= 2 && buf[at] == STAR && buf[at + len - 1] == STAR {
      buf[at + len - 1] := NUL;
      from, to, mode := at + 1, at + len - 1, Substring;
      assert buf[from..to] == t[1..len - 1];
    } else if len >= 1 && buf[at] == STAR {
      from, mode := at + 1, Suffix;
      assert buf[from..to] == t[1..];
    } else if len >= 1 && buf[at + len - 1] == STAR {
      buf[at + len - 1] := NUL;
      to, mode := at + len - 1, Prefix;
      assert buf[from..to] == t[..len - 1];
    }
  }
}
