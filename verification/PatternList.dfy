/**
 Lists of wildcard patterns, utils/simple_pattern.c: splitting the configured text into patterns, with
 negation and escapes, and deciding a string by the first pattern that accepts it.
 */
module PatternList {
  import opened CStrings
  import opened SimplePattern

  const ESCAPE := '\\'
  const NOT := '!'

  datatype Entry = Entry(negative: bool, chain: Chain)

  // ----- Splitting

  function Skip(l: string, i: nat, seps: set<char>): (a: nat)
    requires i <= |l|
    ensures i <= a <= |l| && (a < |l| ==> l[a] !in seps)
    ensures forall k :: i <= k < a ==> l[k] in seps
    decreases |l| - i
  {
    if i < |l| && l[i] in seps then Skip(l, i + 1, seps) else i
  }

  // The word from `i` on, up to a separator that is not escaped, and where the scan goes on.
  function ReadWord(l: string, i: nat, escaped: bool, seps: set<char>): (r: (string, nat))
    requires i <= |l|
    ensures i <= r.1 <= |l| && (i < |l| ==> i < r.1)
    decreases |l| - i
  {
    if i == |l| then ("", i)
    else if l[i] == ESCAPE && !escaped then ReadWord(l, i + 1, true, seps)
    else if l[i] in seps && !escaped then ("", i + 1)
    else
      var (w, j) := ReadWord(l, i + 1, false, seps);
      ([l[i]] + w, j)
  }

  // The next pattern of the text from `i` on, with its negation, if there is one, and where the scan
  // goes on.
  function NextWord(l: string, i: nat, seps: set<char>): (r: (seq<(bool, string)>, nat))
    requires i < |l|
    ensures i < r.1 <= |l|
  {
    var a := Skip(l, i, seps);
    var negative := a < |l| && l[a] == NOT;
    var b := if negative then a + 1 else a;
    if b == |l| then ([], |l|)
    else
      var (w, j) := ReadWord(l, b, false, seps);
      (if w == "" then [] else [(negative, w)], j)
  }

  function Words(l: string, i: nat, seps: set<char>): seq<(bool, string)>
    requires i <= |l|
    decreases |l| - i
  {
    if i == |l| then []
    else
      var (ws, j) := NextWord(l, i, seps);
      ws + Words(l, j, seps)
  }

  function ParseAll(ws: seq<(bool, string)>, default: Mode): seq<Entry> {
    seq(|ws|, i requires 0 <= i < |ws| => Entry(ws[i].0, Parse(ws[i].1, default)))
  }

  lemma ParseOne(negative: bool, w: string, default: Mode)
    ensures ParseAll([(negative, w)], default) == [Entry(negative, Parse(w, default))]
  {
  }

  // The separators a caller asks for; without any, white space.
  function Separators(given: string): set<char> {
    if given == "" then {' ', '\t', '\r', '\n', 12 as char, 11 as char} else set c | c in given
  }

  // The inner loop of simple_pattern_create: copy a word into the buffer, dropping escapes.
  method CopyWord(l: string, start: nat, seps: set<char>, buf: array<char>) returns (n: nat, next: nat)
    requires start <= |l| && buf.Length == |l| + 1
    modifies buf
    ensures n < buf.Length && (buf[..n], next) == ReadWord(l, start, false, seps) && buf[n] == NUL
  {
    var i, escaped := start, false;
    n := 0;
    ghost var target := ReadWord(l, start, false, seps);
    while i < |l| && (escaped || l[i] !in seps || l[i] == ESCAPE)
      invariant start <= i <= |l| && n <= i - start
      invariant target.0 == buf[..n] + ReadWord(l, i, escaped, seps).0
      invariant target.1 == ReadWord(l, i, escaped, seps).1
    {
      if l[i] == ESCAPE && !escaped {
        escaped := true;
        i := i + 1;
      } else {
        ghost var done, rest := buf[..n], ReadWord(l, i + 1, false, seps);
        buf[n] := l[i];
        assert buf[..n + 1] == done + [l[i]];
        assert done + ([l[i]] + rest.0) == done + [l[i]] + rest.0;
        n, i, escaped := n + 1, i + 1, false;
      }
    }
    assert buf[..n] + "" == buf[..n];
    if i < |l| {
      i := i + 1;
    }
    buf[n] := NUL;
    next := i;
  }

  lemma {:induction false} WordHasNoNul(l: string, i: nat, escaped: bool, seps: set<char>)
    requires i <= |l| && NUL !in l
    ensures NUL !in ReadWord(l, i, escaped, seps).0
    decreases |l| - i
  {
    if i < |l| {
      WordHasNoNul(l, i + 1, true, seps);
      WordHasNoNul(l, i + 1, false, seps);
    }
  }

  method SkipSeparators(l: string, start: nat, seps: set<char>) returns (i: nat)
    requires start <= |l|
    ensures i == Skip(l, start, seps)
  {
    i := start;
    while i < |l| && l[i] in seps
      invariant i <= |l| && Skip(l, i, seps) == Skip(l, start, seps)
    {
      i := i + 1;
    }
  }

  // Copy the word at `i` and parse it, if it is not empty.
  method ParseWord(l: string, i: nat, negative: bool, seps: set<char>, default: Mode, buf: array<char>) returns (found: seq<Entry>, next: nat)
    requires i < |l| && NUL !in l && buf.Length == |l| + 1
    modifies buf
    ensures var (w, j) := ReadWord(l, i, false, seps);
            next == j && found == ParseAll(if w == "" then [] else [(negative, w)], default)
  {
    ghost var w := ReadWord(l, i, false, seps).0;
    WordHasNoNul(l, i, false, seps);
    var n;
    n, next := CopyWord(l, i, seps, buf);
    assert n > 0 ==> w[0] in w;
    if buf[0] == NUL {
      return [], next;
    }
    assert CString(buf[..], 0, w);
    var m := ParsePattern(buf, 0, default, w);
    found := [Entry(negative, m)];
    ParseOne(negative, w, default);
  }

  // One turn of the main loop of simple_pattern_create.
  method ReadEntry(l: string, start: nat, seps: set<char>, default: Mode, buf: array<char>) returns (found: seq<Entry>, next: nat)
    requires start < |l| && NUL !in l && buf.Length == |l| + 1
    modifies buf
    ensures found == ParseAll(NextWord(l, start, seps).0, default) && next == NextWord(l, start, seps).1
  {
    var i := SkipSeparators(l, start, seps);
    var negative := i < |l| && l[i] == NOT;
    if negative {
      i := i + 1;
    }
    if i == |l| {
      return [], |l|;
    }
    found, next := ParseWord(l, i, negative, seps, default, buf);
  }

  lemma WordsStep(done: seq<(bool, string)>, l: string, i: nat, seps: set<char>, all: seq<(bool, string)>)
    requires i < |l| && done + Words(l, i, seps) == all
    ensures var (ws, j) := NextWord(l, i, seps);
            done + ws + Words(l, j, seps) == all
  {
    var (ws, j) := NextWord(l, i, seps);
    assert done + (ws + Words(l, j, seps)) == done + ws + Words(l, j, seps);
  }

  // simple_pattern_create; an empty text gives no pattern.
  method Create(l: string, seps: set<char>, default: Mode) returns (entries: seq<Entry>)
    requires NUL !in l
    ensures entries == ParseAll(Words(l, 0, seps), default)
  {
    entries := [];
    var buf := new char[|l| + 1];
    var i := 0;
    ghost var done: seq<(bool, string)> := [];
    while i < |l|
      invariant i <= |l|
      invariant entries == ParseAll(done, default)
      invariant done + Words(l, i, seps) == Words(l, 0, seps)
      decreases |l| - i
    {
      ghost var ws := NextWord(l, i, seps).0;
      WordsStep(done, l, i, seps, Words(l, 0, seps));
      var found;
      found, i := ReadEntry(l, i, seps, default, buf);
      entries, done := entries + found, done + ws;
    }
    assert done + [] == done;
  }

  // ----- Deciding

  ghost predicate FirstMatch(entries: seq<Entry>, s: string, i: nat)
    requires forall k :: 0 <= k < |entries| ==> entries[k].chain.Node?
  {
    i < |entries| && Match(entries[i].chain, s) && forall j :: 0 <= j < i ==> !Match(entries[j].chain, s)
  }

  // simple_pattern_matches_extract, without the capture buffer.
  method Matches(entries: seq<Entry>, s: string) returns (r: bool)
    requires forall i :: 0 <= i < |entries| ==> entries[i].chain.Node?
    ensures r <==> s != "" && exists i :: 0 <= i < |entries| && !entries[i].negative && FirstMatch(entries, s, i)
  {
    if s == "" {
      return false;
    }
    for i := 0 to |entries|
      invariant forall j :: 0 <= j < i ==> !Match(entries[j].chain, s)
    {
      if Match(entries[i].chain, s) {
        return !entries[i].negative;
      }
    }
    return false;
  }

  ghost predicate FirstMeant(ws: seq<(bool, string)>, default: Mode, s: string, i: nat) {
    && i < |ws| && Means(Defaulted(ws[i].1, default), s)
    && forall j :: 0 <= j < i ==> !Means(Defaulted(ws[j].1, default), s)
  }

  // The first pattern that means the string accepts it.
  ghost predicate Selected(ws: seq<(bool, string)>, default: Mode, s: string) {
    exists i :: 0 <= i < |ws| && !ws[i].0 && FirstMeant(ws, default, s, i)
  }

  // A configured text of clean patterns decides every non-empty string by the first pattern that
  // means it.
  method Decide(l: string, seps: set<char>, default: Mode, s: string) returns (r: bool)
    requires NUL !in l
    requires forall i :: 0 <= i < |Words(l, 0, seps)| ==> Clean(Words(l, 0, seps)[i].1)
    ensures r <==> s != "" && Selected(Words(l, 0, seps), default, s)
  {
    var entries := Create(l, seps, default);
    ghost var ws := Words(l, 0, seps);
    WordsNonEmpty(l, 0, seps);
    forall i | 0 <= i < |ws|
      ensures Match(entries[i].chain, s) <==> Means(Defaulted(ws[i].1, default), s)
    {
      CleanRight(ws[i].1, default, s);
    }
    assert forall i: nat :: i < |ws| ==> (FirstMatch(entries, s, i) <==> FirstMeant(ws, default, s, i));
    r := Matches(entries, s);
  }

  lemma {:induction false} WordsNonEmpty(l: string, i: nat, seps: set<char>)
    requires i <= |l|
    ensures forall k :: 0 <= k < |Words(l, i, seps)| ==> Words(l, i, seps)[k].1 != ""
    decreases |l| - i
  {
    if i < |l| {
      WordsNonEmpty(l, NextWord(l, i, seps).1, seps);
    }
  }

  // ----- Lists that read back

  // A character of a word as it is written, with or without an escape in front.
  datatype Letter = Letter(c: char, escaped: bool)

  function Spelled(w: seq<Letter>): string {
    if w == [] then "" else (if w[0].escaped then [ESCAPE, w[0].c] else [w[0].c]) + Spelled(w[1..])
  }

  function Meant(w: seq<Letter>): string {
    if w == [] then "" else [w[0].c] + Meant(w[1..])
  }

  datatype Item = Item(negative: bool, word: seq<Letter>)

  // The items with a gap in front of each and one behind the last.
  function ListText(gaps: seq<string>, items: seq<Item>): string
    requires |gaps| == |items| + 1
    decreases |items|
  {
    if items == [] then gaps[0]
    else gaps[0] + ((if items[0].negative then [NOT] else []) + (Spelled(items[0].word) + ListText(gaps[1..], items[1..])))
  }

  function ListMeant(items: seq<Item>): seq<(bool, string)> {
    if items == [] then [] else [(items[0].negative, Meant(items[0].word))] + ListMeant(items[1..])
  }

  // Separators and backslashes inside a word are escaped.
  ghost predicate Spellable(w: seq<Letter>, seps: set<char>) {
    forall k :: 0 <= k < |w| && !w[k].escaped ==> w[k].c !in seps && w[k].c != ESCAPE
  }

  // There is a word, and a bare exclamation mark in front of it is a negation.
  ghost predicate Writable(item: Item, seps: set<char>) {
    && Spellable(item.word, seps) && item.word != []
    && (item.negative || item.word[0].escaped || item.word[0].c != NOT)
  }

  ghost predicate Blank(gap: string, seps: set<char>) {
    forall k :: 0 <= k < |gap| ==> gap[k] in seps
  }

  // Gaps are made of separators, and between two words there is one.
  ghost predicate Gaps(gaps: seq<string>, seps: set<char>) {
    && (forall k :: 0 <= k < |gaps| ==> Blank(gaps[k], seps))
    && (forall k :: 0 < k < |gaps| - 1 ==> gaps[k] != "")
  }

  lemma {:induction false} ReadSpelled(l: string, i: nat, w: seq<Letter>, rest: string, seps: set<char>)
    requires ESCAPE !in seps && Spellable(w, seps)
    requires i <= |l| && l[i..] == Spelled(w) + rest && (rest == "" || rest[0] in seps)
    ensures var j := i + |Spelled(w)|;
            ReadWord(l, i, false, seps) == (Meant(w), if rest == "" then j else j + 1)
    decreases |w|
  {
    if w == [] {
      assert l[i..] == rest;
      assert rest != "" ==> l[i] == l[i..][0];
    } else {
      var tail := Spelled(w[1..]) + rest;
      var k := if w[0].escaped then 2 else 1;
      assert l[i..] == (if w[0].escaped then [ESCAPE, w[0].c] else [w[0].c]) + tail;
      assert l[i..][0] == l[i] && l[i + k - 1] == l[i..][k - 1] == w[0].c;
      assert l[i + k..] == l[i..][k..] == tail;
      ReadSpelled(l, i + k, w[1..], rest, seps);
      if w[0].escaped {
        assert ReadWord(l, i, false, seps) == ReadWord(l, i + 1, true, seps);
      }
    }
  }

  lemma SuffixAt(l: string, i: nat, x: string, y: string)
    requires i <= |l| && l[i..] == x + y
    ensures i + |x| + |y| == |l| && l[i + |x|..] == y
    ensures y != "" ==> l[i + |x|] == y[0]
  {
    assert l[i + |x|..] == l[i..][|x|..];
    assert y != "" ==> l[i + |x|] == l[i..][|x|];
  }

  lemma SkipBlank(l: string, i: nat, gap: string, rest: string, seps: set<char>)
    requires i <= |l| && l[i..] == gap + rest && Blank(gap, seps) && (rest == "" || rest[0] !in seps)
    ensures Skip(l, i, seps) == i + |gap|
  {
    var a := Skip(l, i, seps);
    assert forall k :: 0 <= k < |gap| ==> l[i + k] == l[i..][k] == gap[k];
    assert rest != "" ==> l[i + |gap|] == l[i..][|gap|] == rest[0];
  }

  lemma NextWordAt(l: string, i: nat, a: nat, negative: bool, w: string, j: nat, seps: set<char>)
    requires i <= a < |l| && Skip(l, i, seps) == a && negative == (l[a] == NOT) && w != ""
    requires var b := if negative then a + 1 else a;
             b < |l| && ReadWord(l, b, false, seps) == (w, j)
    ensures NextWord(l, i, seps) == ([(negative, w)], j)
  {
  }

  // Where the parts of a text lie.
  lemma TextSpans(l: string, i: nat, gap: string, not: string, w: string, rest: string)
    requires i <= |l| && l[i..] == gap + (not + (w + rest)) && not + w != ""
    ensures i + |gap| + |not| + |w| + |rest| == |l|
    ensures l[i + |gap|] == (not + w)[0] == (not + (w + rest))[0]
    ensures l[i + |gap| + |not|..] == w + rest
    ensures rest != "" ==> l[i + |gap| + |not| + |w| + 1..] == rest[1..]
  {
    SuffixAt(l, i, gap, not + (w + rest));
    assert (not + (w + rest))[0] == (not + w)[0];
    SuffixAt(l, i + |gap|, not, w + rest);
    SuffixAt(l, i + |gap| + |not|, w, rest);
    if rest != "" {
      assert rest == [rest[0]] + rest[1..];
      SuffixAt(l, i + |gap| + |not| + |w|, [rest[0]], rest[1..]);
    }
  }

  // How a writable item begins.
  lemma ItemBegins(item: Item, seps: set<char>)
    requires Writable(item, seps) && ESCAPE !in seps && NOT !in seps
    ensures var text := (if item.negative then [NOT] else []) + Spelled(item.word);
            && Spelled(item.word) != "" && text != "" && Meant(item.word) != ""
            && text[0] !in seps && (item.negative <==> text[0] == NOT)
  {
  }

  lemma NextItem(l: string, i: nat, gap: string, text: string, b: nat, j: nat, negative: bool, meant: string, seps: set<char>)
    requires i <= |l| && l[i..] == gap + text && text != "" && meant != "" && Blank(gap, seps)
    requires text[0] !in seps && (negative <==> text[0] == NOT) && b == i + |gap| + (if negative then 1 else 0) < |l|
    requires ReadWord(l, b, false, seps) == (meant, j)
    ensures NextWord(l, i, seps) == ([(negative, meant)], j)
  {
    SuffixAt(l, i, gap, text);
    SkipBlank(l, i, gap, text, seps);
    NextWordAt(l, i, i + |gap|, negative, meant, j, seps);
  }

  // Reading one item, with what is left behind it.
  lemma ReadItem(l: string, i: nat, gap: string, item: Item, rest: string, seps: set<char>)
    requires ESCAPE !in seps && NOT !in seps && Writable(item, seps) && Blank(gap, seps)
    requires i <= |l| && l[i..] == gap + ((if item.negative then [NOT] else []) + (Spelled(item.word) + rest))
    requires rest == "" || rest[0] in seps
    ensures i < |l|
    ensures var j := |l| - (if rest == "" then 0 else |rest| - 1);
            && j >= 0 && NextWord(l, i, seps) == ([(item.negative, Meant(item.word))], j)
            && (rest != "" ==> l[j..] == rest[1..])
  {
    var not: string := if item.negative then [NOT] else [];
    var w := Spelled(item.word);
    ItemBegins(item, seps);
    TextSpans(l, i, gap, not, w, rest);
    ReadSpelled(l, i + |gap| + |not|, item.word, rest, seps);
    NextItem(l, i, gap, not + (w + rest), i + |gap| + |not|, |l| - (if rest == "" then 0 else |rest| - 1),
             item.negative, Meant(item.word), seps);
  }

  lemma BlankReadsEmpty(l: string, i: nat, seps: set<char>)
    requires i <= |l| && Blank(l[i..], seps)
    ensures Words(l, i, seps) == []
  {
    if i < |l| {
      assert l[i..] + "" == l[i..];
      SkipBlank(l, i, l[i..], "", seps);
    }
  }

  // Any list of words, negated or not, with whatever characters escaped, as long as separators and
  // backslashes are, and with any separators around, reads back as it was.
  lemma {:induction false} WriteReadsBack(l: string, i: nat, gaps: seq<string>, items: seq<Item>, seps: set<char>)
    requires ESCAPE !in seps && NOT !in seps && |gaps| == |items| + 1 && Gaps(gaps, seps)
    requires forall k :: 0 <= k < |items| ==> Writable(items[k], seps)
    requires i <= |l| && l[i..] == ListText(gaps, items)
    ensures Words(l, i, seps) == ListMeant(items)
    decreases |items|
  {
    if items == [] {
      BlankReadsEmpty(l, i, seps);
    } else {
      var rest := ListText(gaps[1..], items[1..]);
      RestBegins(gaps, items, seps);
      ReadItem(l, i, gaps[0], items[0], rest, seps);
      var j := NextWord(l, i, seps).1;
      if rest == "" {
        assert items[1..] == [];
      } else {
        RestGoesOn(gaps, items, seps);
        var gaps' := [gaps[1][1..]] + gaps[2..];
        assert l[j..] == rest[1..];
        WriteReadsBack(l, j, gaps', items[1..], seps);
      }
    }
  }

  // One separator behind an item is read with it, the rest of the gap is left.
  lemma RestGoesOn(gaps: seq<string>, items: seq<Item>, seps: set<char>)
    requires |gaps| == |items| + 1 && Gaps(gaps, seps) && items != [] && gaps[1] != ""
    ensures var gaps' := [gaps[1][1..]] + gaps[2..];
            Gaps(gaps', seps) && ListText(gaps', items[1..]) == ListText(gaps[1..], items[1..])[1..]
  {
    var gaps' := [gaps[1][1..]] + gaps[2..];
    assert gaps'[1..] == gaps[1..][1..];
    assert Blank(gaps[1], seps);
    forall k | 0 < k < |gaps'|
      ensures gaps'[k] == gaps[k + 1] && Blank(gaps'[k], seps)
    {
    }
  }

  // Behind an item the text ends or goes on with a separator.
  lemma RestBegins(gaps: seq<string>, items: seq<Item>, seps: set<char>)
    requires |gaps| == |items| + 1 && Gaps(gaps, seps) && items != []
    ensures var rest := ListText(gaps[1..], items[1..]);
            if gaps[1] == "" then items[1..] == [] && rest == "" else rest != "" && rest[0] == gaps[1][0] && rest[0] in seps
  {
    assert Blank(gaps[1], seps);
  }

  // ----- Lists without escapes

  // The words as they stand, each negated or not, with gaps around them.
  function PlainText(gaps: seq<string>, ws: seq<(bool, string)>): string
    requires |gaps| == |ws| + 1
    decreases |ws|
  {
    if ws == [] then gaps[0]
    else gaps[0] + ((if ws[0].0 then "!" else "") + (ws[0].1 + PlainText(gaps[1..], ws[1..])))
  }

  // A word without separators and backslashes, and, unless negated, without an exclamation mark in front.
  ghost predicate PlainWord(w: (bool, string), seps: set<char>) {
    && w.1 != "" && (w.0 || w.1[0] != '!')
    && forall k :: 0 <= k < |w.1| ==> w.1[k] !in seps && w.1[k] != '\\'
  }

  function Letters(w: string): seq<Letter> {
    if w == "" then [] else [Letter(w[0], false)] + Letters(w[1..])
  }

  function Items(ws: seq<(bool, string)>): (items: seq<Item>)
    ensures |items| == |ws|
  {
    if ws == [] then [] else [Item(ws[0].0, Letters(ws[0].1))] + Items(ws[1..])
  }

  lemma {:induction false} LettersOf(w: string, seps: set<char>)
    requires forall k :: 0 <= k < |w| ==> w[k] !in seps && w[k] != ESCAPE
    ensures Spelled(Letters(w)) == w && Meant(Letters(w)) == w && Spellable(Letters(w), seps)
  {
    if w != "" {
      LettersOf(w[1..], seps);
    }
  }

  lemma {:induction false} ItemsOf(gaps: seq<string>, ws: seq<(bool, string)>, seps: set<char>)
    requires |gaps| == |ws| + 1 && forall k :: 0 <= k < |ws| ==> PlainWord(ws[k], seps)
    ensures ListText(gaps, Items(ws)) == PlainText(gaps, ws) && ListMeant(Items(ws)) == ws
    ensures forall k :: 0 <= k < |ws| ==> Writable(Items(ws)[k], seps)
    decreases |ws|
  {
    if ws != [] {
      assert PlainWord(ws[0], seps);
      LettersOf(ws[0].1, seps);
      ItemsOf(gaps[1..], ws[1..], seps);
      assert ws == [(ws[0].0, ws[0].1)] + ws[1..];
    }
  }

  // Ordinary text reads as the words one sees in it.
  lemma PlainReadsBack(gaps: seq<string>, ws: seq<(bool, string)>, seps: set<char>)
    requires '\\' !in seps && '!' !in seps && |gaps| == |ws| + 1 && Gaps(gaps, seps)
    requires forall k :: 0 <= k < |ws| ==> PlainWord(ws[k], seps)
    ensures Words(PlainText(gaps, ws), 0, seps) == ws
  {
    ItemsOf(gaps, ws, seps);
    var l := PlainText(gaps, ws);
    assert l[0..] == l;
    WriteReadsBack(l, 0, gaps, Items(ws), seps);
  }

  // So such a text decides every non-empty string by the first of its words that means it.
  method DecidePlain(l: string, ghost gaps: seq<string>, ghost ws: seq<(bool, string)>, seps: set<char>, default: Mode, s: string)
    returns (r: bool)
    requires NUL !in l && '\\' !in seps && '!' !in seps && |gaps| == |ws| + 1 && Gaps(gaps, seps)
    requires forall k :: 0 <= k < |ws| ==> PlainWord(ws[k], seps) && Clean(ws[k].1)
    requires l == PlainText(gaps, ws)
    ensures r <==> s != "" && Selected(ws, default, s)
  {
    PlainReadsBack(gaps, ws, seps);
    r := Decide(l, seps, default, s);
  }

  // With the usual separators.
  lemma UsualText()
    ensures Words(" docker*\t!kube* ", 0, Separators("")) == [(false, "docker*"), (true, "kube*")]
  {
    var gaps, ws := [" ", "\t", " "], [(false, "docker*"), (true, "kube*")];
    assert gaps[1..] == ["\t", " "] && gaps[1..][1..] == [" "] && ws[1..] == [(true, "kube*")] && ws[1..][1..] == [];
    assert PlainText(gaps, ws) == " docker*\t!kube* ";
    PlainReadsBack(gaps, ws, Separators(""));
  }
}
