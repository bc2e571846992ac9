/**
 The tokenizer of utils/procfile.c/.h: it reads a whole file into a growing buffer, cuts it into words
 in place and records the words of each line.  The table it builds is that of a plain split of the
 file's text.
 */
module ProcFile {
  import opened CStrings
  import FileRead
  import opened Wrappers

  datatype Class = Separator | Newline | Word

  // ----- The plain split

  type Classes = char -> Class

  // Cut `s` at every character of class `at`: one more field than there are such characters.
  function Fields(cls: Classes, at: Class, s: string): (fs: seq<string>)
    ensures fs != []
  {
    if s == "" then [""]
    else if cls(s[0]) == at then [""] + Fields(cls, at, s[1..])
    else
      var fs := Fields(cls, at, s[1..]);
      [[s[0]] + fs[0]] + fs[1..]
  }

  function NonEmpty(fs: seq<string>): seq<string> {
    if fs == [] then [] else (if fs[0] == "" then [] else [fs[0]]) + NonEmpty(fs[1..])
  }

  // The words of a line.  A newline ends a word even if the word is empty, the end of the file only
  // one that is not.
  function LineWords(cls: Classes, line: string, ended: bool): seq<string> {
    var fs := Fields(cls, Separator, line);
    var last := |fs| - 1;
    NonEmpty(fs[..last]) + (if ended || fs[last] != "" then [fs[last]] else [])
  }

  function Rows(cls: Classes, lines: seq<string>): (rows: seq<seq<string>>)
    requires lines != []
    ensures rows != []
  {
    if |lines| == 1 then [LineWords(cls, lines[0], false)]
    else [LineWords(cls, lines[0], true)] + Rows(cls, lines[1..])
  }

  // The words of the text, line by line.
  function Table(cls: Classes, s: string): seq<seq<string>> {
    Rows(cls, Fields(cls, Newline, s))
  }

  // ----- The same by one scan

  // What is still to come: the current line has the words `cur`, its next word began at `t`, and the
  // scan is at `i`.
  function Scan(cls: Classes, s: string, t: nat, i: nat, cur: seq<string>): seq<seq<string>>
    requires t <= i <= |s|
    decreases |s| - i
  {
    if i == |s| then [cur + (if t < i then [s[t..i]] else [])]
    else match cls(s[i])
      case Word => Scan(cls, s, t, i + 1, cur)
      case Separator => Scan(cls, s, i + 1, i + 1, if t < i then cur + [s[t..i]] else cur)
      case Newline => [cur + [s[t..i]]] + Scan(cls, s, i + 1, i + 1, [])
  }

  ghost predicate AllWord(cls: Classes, w: string) {
    forall k :: 0 <= k < |w| ==> cls(w[k]) == Word
  }

  lemma {:induction false} FieldsOfWord(cls: Classes, at: Class, w: string, u: string)
    requires at != Word && AllWord(cls, w)
    ensures var fs := Fields(cls, at, u);
            Fields(cls, at, w + u) == [w + fs[0]] + fs[1..]
  {
    var fs := Fields(cls, at, u);
    if w == "" {
      assert w + u == u && w + fs[0] == fs[0];
    } else {
      assert (w + u)[1..] == w[1..] + u;
      FieldsOfWord(cls, at, w[1..], u);
      assert [w[0]] + (w[1..] + fs[0]) == w + fs[0];
    }
  }

  lemma LineOfWord(cls: Classes, w: string, ended: bool)
    requires AllWord(cls, w)
    ensures LineWords(cls, w, ended) == if ended || w != "" then [w] else []
  {
    FieldsOfWord(cls, Separator, w, "");
    assert w + "" == w;
  }

  lemma FirstNonEmpty(w: string, g: seq<string>)
    requires g != []
    ensures NonEmpty(([w] + g)[..|g|]) == (if w == "" then [] else [w]) + NonEmpty(g[..|g| - 1])
  {
    assert ([w] + g)[..|g|] == [w] + g[..|g| - 1];
  }

  // A separator ends the word in front of it.
  lemma LineAfterSeparator(cls: Classes, w: string, c: char, rest: string, ended: bool)
    requires AllWord(cls, w) && cls(c) == Separator
    ensures LineWords(cls, w + [c] + rest, ended) == (if w == "" then [] else [w]) + LineWords(cls, rest, ended)
  {
    var g := Fields(cls, Separator, rest);
    assert Fields(cls, Separator, [c] + rest) == [""] + g by {
      assert ([c] + rest)[1..] == rest;
    }
    FieldsOfWord(cls, Separator, w, [c] + rest);
    assert w + [c] + rest == w + ([c] + rest) && w + "" == w;
    assert Fields(cls, Separator, w + [c] + rest) == [w] + g;
    FirstNonEmpty(w, g);
  }

  // The table of the text `w + u`, when `w` has no newline and `cur` words come before it.
  function TableFrom(cls: Classes, cur: seq<string>, w: string, u: string): seq<seq<string>> {
    var ls := Fields(cls, Newline, u);
    [cur + LineWords(cls, w + ls[0], |ls| > 1)] + (if |ls| > 1 then Rows(cls, ls[1..]) else [])
  }

  lemma TableFromStart(cls: Classes, s: string)
    ensures TableFrom(cls, [], "", s) == Table(cls, s)
  {
    var ls := Fields(cls, Newline, s);
    assert "" + ls[0] == ls[0];
    assert [] + LineWords(cls, ls[0], |ls| > 1) == LineWords(cls, ls[0], |ls| > 1);
  }

  lemma TableAtEnd(cls: Classes, cur: seq<string>, w: string)
    requires AllWord(cls, w)
    ensures TableFrom(cls, cur, w, "") == [cur + (if w != "" then [w] else [])]
  {
    LineOfWord(cls, w, false);
    assert w + "" == w;
  }

  lemma TableAtWord(cls: Classes, cur: seq<string>, w: string, c: char, u: string)
    requires cls(c) == Word
    ensures TableFrom(cls, cur, w, [c] + u) == TableFrom(cls, cur, w + [c], u)
  {
    assert ([c] + u)[1..] == u;
    var ls := Fields(cls, Newline, u);
    assert w + ([c] + ls[0]) == w + [c] + ls[0];
  }

  lemma TableAtSeparator(cls: Classes, cur: seq<string>, w: string, c: char, u: string)
    requires AllWord(cls, w) && cls(c) == Separator
    ensures TableFrom(cls, cur, w, [c] + u) == TableFrom(cls, if w == "" then cur else cur + [w], "", u)
  {
    assert ([c] + u)[1..] == u;
    var ls := Fields(cls, Newline, u);
    assert w + ([c] + ls[0]) == w + [c] + ls[0];
    LineAfterSeparator(cls, w, c, ls[0], |ls| > 1);
    assert "" + ls[0] == ls[0];
    var words := LineWords(cls, ls[0], |ls| > 1);
    assert cur + ([w] + words) == cur + [w] + words;
    assert [] + words == words;
  }

  lemma TableAtNewline(cls: Classes, cur: seq<string>, w: string, c: char, u: string)
    requires AllWord(cls, w) && cls(c) == Newline
    ensures TableFrom(cls, cur, w, [c] + u) == [cur + [w]] + TableFrom(cls, [], "", u)
  {
    assert ([c] + u)[1..] == u;
    LineOfWord(cls, w, true);
    assert w + "" == w;
    TableFromStart(cls, u);
  }

  lemma AllWordStep(cls: Classes, s: string, t: nat, i: nat)
    requires t <= i < |s| && AllWord(cls, s[t..i]) && cls(s[i]) == Word
    ensures AllWord(cls, s[t..i + 1])
  {
    assert s[t..i + 1] == s[t..i] + [s[i]];
  }

  // The scan computes the plain split at `i`.
  ghost predicate ScansTable(cls: Classes, s: string, t: nat, i: nat, cur: seq<string>)
    requires t <= i <= |s|
  {
    Scan(cls, s, t, i, cur) == TableFrom(cls, cur, s[t..i], s[i..])
  }

  lemma ScanAtEnd(cls: Classes, s: string, t: nat, cur: seq<string>)
    requires t <= |s| && AllWord(cls, s[t..])
    ensures ScansTable(cls, s, t, |s|, cur)
  {
    assert s[t..|s|] == s[t..] && s[|s|..] == "";
    TableAtEnd(cls, cur, s[t..]);
  }

  lemma ScanAtWord(cls: Classes, s: string, t: nat, i: nat, cur: seq<string>)
    requires t <= i < |s| && cls(s[i]) == Word && ScansTable(cls, s, t, i + 1, cur)
    ensures ScansTable(cls, s, t, i, cur)
  {
    assert s[i..] == [s[i]] + s[i + 1..] && s[t..i + 1] == s[t..i] + [s[i]];
    TableAtWord(cls, cur, s[t..i], s[i], s[i + 1..]);
  }

  lemma ScanAtSeparator(cls: Classes, s: string, t: nat, i: nat, cur: seq<string>)
    requires t <= i < |s| && AllWord(cls, s[t..i]) && cls(s[i]) == Separator
    requires ScansTable(cls, s, i + 1, i + 1, if t < i then cur + [s[t..i]] else cur)
    ensures ScansTable(cls, s, t, i, cur)
  {
    assert s[i..] == [s[i]] + s[i + 1..] && s[i + 1..i + 1] == "";
    TableAtSeparator(cls, cur, s[t..i], s[i], s[i + 1..]);
  }

  lemma ScanAtNewline(cls: Classes, s: string, t: nat, i: nat, cur: seq<string>)
    requires t <= i < |s| && AllWord(cls, s[t..i]) && cls(s[i]) == Newline
    requires ScansTable(cls, s, i + 1, i + 1, [])
    ensures ScansTable(cls, s, t, i, cur)
  {
    assert s[i..] == [s[i]] + s[i + 1..] && s[i + 1..i + 1] == "";
    TableAtNewline(cls, cur, s[t..i], s[i], s[i + 1..]);
  }

  lemma {:induction false} ScanIsTable(cls: Classes, s: string, t: nat, i: nat, cur: seq<string>)
    requires t <= i <= |s| && AllWord(cls, s[t..i])
    ensures ScansTable(cls, s, t, i, cur)
    decreases |s| - i
  {
    if i == |s| {
      assert s[t..i] == s[t..];
      ScanAtEnd(cls, s, t, cur);
    } else if cls(s[i]) == Word {
      AllWordStep(cls, s, t, i);
      ScanIsTable(cls, s, t, i + 1, cur);
      ScanAtWord(cls, s, t, i, cur);
    } else if cls(s[i]) == Separator {
      ScanIsTable(cls, s, i + 1, i + 1, if t < i then cur + [s[t..i]] else cur);
      ScanAtSeparator(cls, s, t, i, cur);
    } else {
      ScanIsTable(cls, s, i + 1, i + 1, []);
      ScanAtNewline(cls, s, t, i, cur);
    }
  }

  lemma ScanFromStart(cls: Classes, s: string)
    ensures Scan(cls, s, 0, 0, []) == Table(cls, s)
  {
    ScanIsTable(cls, s, 0, 0, []);
    assert s[0..0] == "" && s[0..] == s;
    TableFromStart(cls, s);
  }

  function Count(cls: Classes, at: Class, s: string): nat {
    if s == "" then 0 else (if cls(s[0]) == at then 1 else 0) + Count(cls, at, s[1..])
  }

  lemma {:induction false} FieldsCount(cls: Classes, at: Class, s: string)
    ensures |Fields(cls, at, s)| == 1 + Count(cls, at, s)
  {
    if s != "" {
      FieldsCount(cls, at, s[1..]);
    }
  }

  lemma {:induction false} RowsShape(cls: Classes, lines: seq<string>, k: nat)
    requires k < |lines|
    ensures |Rows(cls, lines)| == |lines|
    ensures k + 1 < |lines| ==> Rows(cls, lines)[k] != []
  {
    if |lines| > 1 {
      RowsShape(cls, lines[1..], if k == 0 then 0 else k - 1);
    }
  }

  // One line for each newline, and one more; every line that ends has a word.
  lemma LinePerNewline(cls: Classes, s: string, k: nat)
    ensures |Table(cls, s)| == 1 + Count(cls, Newline, s)
    ensures k < Count(cls, Newline, s) ==> Table(cls, s)[k] != []
  {
    var lines := Fields(cls, Newline, s);
    FieldsCount(cls, Newline, s);
    RowsShape(cls, lines, if k < |lines| then k else 0);
  }

  // ----- The tables of words and lines

  datatype Line = Line(words: nat, first: nat)

  function Flatten(rows: seq<seq<string>>): seq<string> {
    if rows == [] then [] else Flatten(rows[..|rows| - 1]) + rows[|rows| - 1]
  }

  function LineTable(rows: seq<seq<string>>): (ls: seq<Line>)
    ensures |ls| == |rows|
  {
    if rows == [] then []
    else
      var front := rows[..|rows| - 1];
      LineTable(front) + [Line(|rows[|rows| - 1]|, |Flatten(front)|)]
  }

  // The lines partition the words: each begins where the one before it ends, and its words are there.
  lemma {:induction false} LinesPartition(rows: seq<seq<string>>, k: nat)
    requires k < |rows|
    ensures LineTable(rows)[k].words == |rows[k]|
    ensures var a := LineTable(rows)[k].first;
            var b := if k + 1 < |rows| then LineTable(rows)[k + 1].first else |Flatten(rows)|;
            0 <= a && b == a + |rows[k]| <= |Flatten(rows)| && Flatten(rows)[a..b] == rows[k]
    ensures LineTable(rows)[0].first == 0
  {
    var front, last := rows[..|rows| - 1], rows[|rows| - 1];
    if k < |front| {
      LinesPartition(front, k);
      var a := LineTable(front)[k].first;
      var b := a + |rows[k]|;
      assert Flatten(rows)[a..b] == Flatten(front)[a..b];
    } else {
      assert Flatten(rows)[|Flatten(front)|..] == last;
      if front != [] {
        LinesPartition(front, 0);
      }
    }
  }

  lemma FlattenAdd(done: seq<seq<string>>, cur: seq<string>, w: string)
    ensures Flatten(done + [cur]) == Flatten(done) + cur
    ensures Flatten(done + [cur + [w]]) == Flatten(done + [cur]) + [w]
    ensures LineTable(done + [cur]) == LineTable(done) + [Line(|cur|, |Flatten(done)|)]
    ensures LineTable(done + [cur + [w]]) == LineTable(done) + [Line(|cur| + 1, |Flatten(done)|)]
  {
    assert (done + [cur])[..|done|] == done && (done + [cur + [w]])[..|done|] == done;
  }

  // ----- The lookups of procfile.h

  // A word's place in the buffer, or the empty string.
  datatype WordRef = At(place: nat) | Empty

  function WordsOnLine(lines: seq<Line>, line: nat): nat {
    if |lines| > line then lines[line].words else 0
  }

  function NthWord(words: seq<nat>, word: nat): WordRef {
    if word < |words| then At(words[word]) else Empty
  }

  function FirstWordOnLine(lines: seq<Line>, words: seq<nat>, line: nat): WordRef {
    if line < |lines| then NthWord(words, lines[line].first) else Empty
  }

  function WordOnLine(lines: seq<Line>, words: seq<nat>, line: nat, word: nat): WordRef {
    if line < |lines| && word < WordsOnLine(lines, line) then NthWord(words, lines[line].first + word) else Empty
  }

  // The tables describe `rows`: they list its words line by line, each terminated in the buffer.
  ghost predicate Describes(buf: seq<char>, lines: seq<Line>, words: seq<nat>, rows: seq<seq<string>>, end: nat) {
    lines == LineTable(rows) && Placed(buf, words, Flatten(rows), end)
  }

  ghost predicate Reads(buf: seq<char>, r: WordRef, w: string) {
    r.At? && CString(buf, r.place, w)
  }

  // procfile_linewords and procfile_lineword: the number of words on each line and the words
  // themselves; nothing beyond them.
  lemma LookupReadsTable(buf: seq<char>, lines: seq<Line>, words: seq<nat>, rows: seq<seq<string>>, end: nat, line: nat, word: nat)
    requires Describes(buf, lines, words, rows, end)
    ensures WordsOnLine(lines, line) == if line < |rows| then |rows[line]| else 0
    ensures if line < |rows| && word < |rows[line]| then Reads(buf, WordOnLine(lines, words, line, word), rows[line][word])
            else WordOnLine(lines, words, line, word) == Empty
  {
    if line < |rows| {
      LinesPartition(rows, line);
      if word < |rows[line]| {
        var a := lines[line].first;
        assert Flatten(rows)[a..a + |rows[line]|][word] == Flatten(rows)[a + word];
      }
    }
  }

  // procfile_line: the first word of each line that has one, and otherwise nothing.
  lemma FirstWordLookup(buf: seq<char>, lines: seq<Line>, words: seq<nat>, cls: Classes, s: string, end: nat, line: nat)
    requires Describes(buf, lines, words, Table(cls, s), end)
    ensures var rows := Table(cls, s);
            if line < |rows| && rows[line] != [] then Reads(buf, FirstWordOnLine(lines, words, line), rows[line][0])
            else FirstWordOnLine(lines, words, line) == Empty
  {
    var rows := Table(cls, s);
    if line < |rows| {
      LinesPartition(rows, line);
      LinePerNewline(cls, s, line);
      if rows[line] != [] {
        LookupReadsTable(buf, lines, words, rows, end, line, 0);
      }
    }
  }

  // ----- Separators

  // isspace and isprint in the C locale.
  function DefaultClass(c: char): Class {
    if c == '\n' || c == '\r' then Newline
    else if c == ' ' || 9 <= c as int <= 13 || !(32 <= c as int <= 126) then Separator
    else Word
  }

  function ClassIn(seps: string): Classes {
    (c: char) => if c in seps then Separator else DefaultClass(c)
  }

  const DEFAULT_SEPARATORS := " \t=|"

  // The separators a caller asks for; without any, the usual ones.
  function Chosen(seps: Option<string>): string {
    match seps
    case None => DEFAULT_SEPARATORS
    case Some(given) => given
  }

  // Line feed and carriage return end lines; the other characters that are not printable, and the space,
  // separate; those from '!' to '~' make words, unless they are asked for as separators.
  lemma CharacterClasses(c: char, seps: string)
    requires c as int < 256
    ensures c in seps ==> ClassIn(seps)(c) == Separator
    ensures c !in seps ==>
              && (ClassIn(seps)(c) == Newline <==> c == '\n' || c == '\r')
              && (ClassIn(seps)(c) == Word <==> '!' <= c <= '~')
    ensures c in Chosen(None) <==> c == ' ' || c == '\t' || c == '=' || c == '|'
  {
  }

  ghost predicate Ascii(s: string) {
    forall i :: 0 <= i < |s| ==> NUL != s[i] && s[i] as int < 128
  }

  ghost predicate Bytes(s: string) {
    forall i :: 0 <= i < |s| ==> s[i] as int < 256
  }

  // A small file with the usual separators: runs of separators count once, a separator in front of a
  // newline leaves an empty last word, and the end of the file adds nothing.
  lemma SmallTable()
    ensures Table(ClassIn(Chosen(None)), "a=1 \nb") == [["a", "1", ""], ["b"]]
  {
    var cls, s := ClassIn(Chosen(None)), "a=1 \nb";
    CharacterClasses('a', Chosen(None));
    CharacterClasses('=', Chosen(None));
    CharacterClasses('1', Chosen(None));
    CharacterClasses(' ', Chosen(None));
    CharacterClasses('\n', Chosen(None));
    CharacterClasses('b', Chosen(None));
    assert s[0] == 'a' && s[1] == '=' && s[2] == '1' && s[3] == ' ' && s[4] == '\n' && s[5] == 'b';
    SixCharacters(cls, s);
  }

  lemma SixCharacters(cls: Classes, s: string)
    requires |s| == 6 && cls(s[0]) == Word && cls(s[1]) == Separator && cls(s[2]) == Word
    requires cls(s[3]) == Separator && cls(s[4]) == Newline && cls(s[5]) == Word
    ensures Table(cls, s) == [[[s[0]], [s[2]], ""], [[s[5]]]]
  {
    ScanFromStart(cls, s);
    var none: seq<string> := [];
    assert s[0..1] == [s[0]] && s[2..3] == [s[2]] && s[4..4] == "" && s[5..6] == [s[5]];
    assert none + [s[5..6]] == [[s[5]]] && none + [s[0..1]] == [[s[0]]];
    assert [[s[0]]] + [s[2..3]] == [[s[0]], [s[2]]] && [[s[0]], [s[2]]] + [s[4..4]] == [[s[0]], [s[2]], ""];
    assert Scan(cls, s, 5, 6, none) == [[[s[5]]]];
    assert Scan(cls, s, 5, 5, none) == [[[s[5]]]];
    assert Scan(cls, s, 4, 4, [[s[0]], [s[2]]]) == [[[s[0]], [s[2]], ""], [[s[5]]]];
    assert Scan(cls, s, 2, 3, [[s[0]]]) == [[[s[0]], [s[2]], ""], [[s[5]]]];
    assert Scan(cls, s, 2, 2, [[s[0]]]) == [[[s[0]], [s[2]], ""], [[s[5]]]];
    assert Scan(cls, s, 0, 1, none) == [[[s[0]], [s[2]], ""], [[s[5]]]];
  }

  // The table `t` gives the classes `cls`.
  ghost predicate TableFor(t: seq<Class>, cls: Classes) {
    |t| == 256 && forall c: char :: c as int < 256 ==> t[c as int] == cls(c)
  }

  // __procfile_init_defseps and __procfile_set_separators.
  method SetSeparators(given: Option<string>) returns (r: seq<Class>)
    requires Ascii(Chosen(given))
    ensures TableFor(r, ClassIn(Chosen(given)))
  {
    var seps := Chosen(given);
    var table := new Class[256](_ => Word);
    var i := 256;
    while i > 0
      invariant 0 <= i <= 256
      invariant forall k :: i <= k < 256 ==> table[k] == DefaultClass(k as char)
    {
      i := i - 1;
      table[i] := DefaultClass(i as char);
    }
    for n := 0 to |seps|
      invariant forall k :: 0 <= k < 256 ==> table[k] == ClassIn(seps[..n])(k as char)
    {
      table[seps[n] as int] := Separator;
    }
    assert seps[..|seps|] == seps;
    r := table[..];
    forall c: char | c as int < 256
      ensures r[c as int] == ClassIn(seps)(c)
    {
      assert c as int as char == c;
    }
  }

  // ----- The tokenizer

  lemma WordPlaced(before: seq<char>, after: seq<char>, words: seq<nat>, ps: seq<string>, t: nat, e: nat, w: string)
    requires Placed(before, words, ps, t) && t <= e < |before| && after == before[e := NUL]
    requires before[t..e] == w && NUL !in w
    ensures Placed(after, words + [t], ps + [w], e + 1)
  {
    PlacedStays(before, after, words, ps, t);
    assert after[t..e] == w;
  }

  lemma NoNulInWord(cls: Classes, w: string)
    requires AllWord(cls, w) && cls(NUL) != Word
    ensures NUL !in w
  {
  }

  // The three steps of the scan.
  lemma ScanStep(cls: Classes, s: string, t: nat, i: nat, done: seq<seq<string>>, cur: seq<string>, all: seq<seq<string>>)
    requires t <= i < |s| && done + Scan(cls, s, t, i, cur) == all && AllWord(cls, s[t..i])
    ensures cls(s[i]) == Word ==> done + Scan(cls, s, t, i + 1, cur) == all && AllWord(cls, s[t..i + 1])
    ensures cls(s[i]) == Separator ==>
              done + Scan(cls, s, i + 1, i + 1, if t < i then cur + [s[t..i]] else cur) == all
    ensures cls(s[i]) == Newline ==>
              done + [cur + [s[t..i]]] + Scan(cls, s, i + 1, i + 1, []) == all
  {
    assert s[t..i + 1] == s[t..i] + [s[i]];
    if cls(s[i]) == Newline {
      var row, rest := [cur + [s[t..i]]], Scan(cls, s, i + 1, i + 1, []);
      assert done + (row + rest) == done + row + rest;
    }
  }

  // The last word without its last byte.
  function Shortened(rows: seq<seq<string>>): seq<seq<string>>
    requires rows != []
  {
    var row := rows[|rows| - 1];
    if row == [] || row[|row| - 1] == "" then rows
    else
      var w := row[|row| - 1];
      rows[..|rows| - 1] + [row[..|row| - 1] + [w[..|w| - 1]]]
  }

  lemma ShortenLast(done: seq<seq<string>>, cur: seq<string>, w: string)
    requires w != ""
    ensures Shortened(done + [cur + [w]]) == done + [cur + [w[..|w| - 1]]]
  {
    var rows, row := done + [cur + [w]], cur + [w];
    assert rows[..|rows| - 1] == done && row[..|row| - 1] == cur;
  }

  // What the parser makes of a text: the table, unless the text fills the buffer and ends in a word.
  function ParsedTable(cls: Classes, text: string, full: bool): seq<seq<string>> {
    if full && text != "" && cls(text[|text| - 1]) == Word then Shortened(Table(cls, text)) else Table(cls, text)
  }

  // The words of the last line.
  function LastRow(text: string, t: nat, cur: seq<string>, full: bool): seq<string>
    requires t <= |text|
  {
    if t == |text| then cur else cur + [text[t..if full then |text| - 1 else |text|]]
  }

  lemma ParsedAtEnd(cls: Classes, text: string, t: nat, done: seq<seq<string>>, cur: seq<string>, full: bool)
    requires t <= |text| && done + Scan(cls, text, t, |text|, cur) == Table(cls, text)
    requires AllWord(cls, text[t..]) && (t > 0 ==> cls(text[t - 1]) != Word)
    ensures ParsedTable(cls, text, full) == done + [LastRow(text, t, cur, full)]
  {
    assert cur + [] == cur && text[t..|text|] == text[t..];
    if t < |text| {
      assert text[|text| - 1] == text[t..][|text| - 1 - t];
      ShortenLast(done, cur, text[t..]);
      assert text[t..][..|text| - 1 - t] == text[t..|text| - 1];
    }
  }

  const DATA_STEP := 512
  const LINES_STEP := 10
  const WORDS_STEP := 200

  // struct proc_file; pf->size is data.Length.
  class File {
    const fd: FileRead.File
    const separators: seq<Class>
    ghost const cls: Classes
    var data: array<char>
    var len: nat
    var lines: seq<Line>
    var linesSize: nat
    var words: seq<nat>
    var wordsSize: nat

    ghost predicate Valid()
      reads this
    {
      && TableFor(separators, cls) && cls(NUL) == Separator
      && len <= data.Length
      && |lines| <= linesSize && |words| <= wordsSize
    }

    // procfile_open, once the file is open.
    constructor (fd: FileRead.File, seps: Option<string>)
      requires Ascii(Chosen(seps))
      ensures Valid() && this.fd == fd && cls == ClassIn(Chosen(seps))
      ensures fresh(data) && data.Length == DATA_STEP
    {
      this.fd := fd;
      var table := SetSeparators(seps);
      separators, cls := table, ClassIn(Chosen(seps));
      data, len := new char[DATA_STEP](_ => NUL), 0;
      lines, linesSize := [], LINES_STEP;
      words, wordsSize := [], WORDS_STEP;
    }

    // __add_pfline
    method AddLine(ghost rows: seq<seq<string>>, ghost end: nat)
      requires Valid() && Describes(data[..], lines, words, rows, end)
      modifies this`lines, this`linesSize
      ensures Valid() && Describes(data[..], lines, words, rows + [[]], end)
    {
      if |lines| == linesSize {
        linesSize := linesSize + LINES_STEP;
      }
      FlattenAdd(rows, [], "");
      lines := lines + [Line(0, |words|)];
    }

    // __add_pfword
    method AddWord(t: nat)
      requires Valid()
      modifies this`words, this`wordsSize
      ensures Valid() && words == old(words) + [t]
    {
      if |words| == wordsSize {
        wordsSize := wordsSize + WORDS_STEP;
      }
      words := words + [t];
    }

    // Terminate the word from `t` to `e`, add it to the words and count it on the last line.
    method EndWord(t: nat, e: nat, ghost done: seq<seq<string>>, ghost cur: seq<string>, ghost w: string)
      requires Valid() && Describes(data[..], lines, words, done + [cur], t)
      requires t <= e < data.Length && data[t..e] == w && NUL !in w
      modifies this`lines, this`words, this`wordsSize, data
      ensures Valid() && Describes(data[..], lines, words, done + [cur + [w]], e + 1)
      ensures forall k :: 0 <= k < data.Length && k != e ==> data[k] == old(data[k])
    {
      WordPlaced(data[..], data[..][e := NUL], words, Flatten(done + [cur]), t, e, w);
      FlattenAdd(done, cur, w);
      data[e] := NUL;
      AddWord(t);
      var last := |lines| - 1;
      lines := lines[last := lines[last].(words := lines[last].words + 1)];
    }

    // A newline also begins a new line.
    method EndLine(t: nat, e: nat, ghost done: seq<seq<string>>, ghost cur: seq<string>, ghost w: string)
      requires Valid() && Describes(data[..], lines, words, done + [cur], t)
      requires t <= e < data.Length && data[t..e] == w && NUL !in w
      modifies this`lines, this`linesSize, this`words, this`wordsSize, data
      ensures Valid() && Describes(data[..], lines, words, done + [cur + [w]] + [[]], e + 1)
      ensures forall k :: 0 <= k < data.Length && k != e ==> data[k] == old(data[k])
    {
      EndWord(t, e, done, cur, w);
      AddLine(done + [cur + [w]], e + 1);
    }

    // The parser is at `s`, in a word that began at `t`, with the lines `done` and the words `cur` behind it.
    ghost predicate Parsing(text: string, t: nat, s: nat, done: seq<seq<string>>, cur: seq<string>)
      reads this, data
    {
      && Valid() && t <= s <= len == |text|
      && (forall k :: t <= k < len ==> data[k] == text[k])
      && (t > 0 ==> cls(text[t - 1]) != Word)
      && AllWord(cls, text[t..s]) && done + Scan(cls, text, t, s, cur) == Table(cls, text)
      && Describes(data[..], lines, words, done + [cur], t)
    }

    // The text of the current word.
    lemma CurrentWord(text: string, t: nat, s: nat, done: seq<seq<string>>, cur: seq<string>, e: nat)
      requires Parsing(text, t, s, done, cur) && t <= e <= s
      ensures data[t..e] == text[t..e] && NUL !in text[t..e]
    {
      assert text[t..e] == text[t..s][..e - t];
      NoNulInWord(cls, text[t..e]);
    }

    // One turn of the parser's loop.
    method Step(s: nat, t: nat, ghost text: string, ghost done: seq<seq<string>>, ghost cur: seq<string>)
      returns (next: nat, ghost done': seq<seq<string>>, ghost cur': seq<string>)
      requires Parsing(text, t, s, done, cur) && s < len && Bytes(text)
      modifies this`lines, this`linesSize, this`words, this`wordsSize, data
      ensures Parsing(text, next, s + 1, done', cur')
    {
      ghost var w := text[t..s];
      CurrentWord(text, t, s, done, cur, s);
      ScanStep(cls, text, t, s, done, cur, Table(cls, text));
      next, done', cur' := s + 1, done, cur;
      match separators[data[s] as int] {
        case Word =>
          next := t;
        case Separator =>
          if s != t {
            EndWord(t, s, done, cur, w);
            cur' := cur + [w];
          }
        case Newline =>
          EndLine(t, s, done, cur, w);
          done', cur' := done + [cur + [w]], [];
      }
    }

    // The first line begins.
    method StartLine(ghost text: string)
      requires Valid() && lines == [] && words == [] && data[..len] == text
      modifies this`lines, this`linesSize
      ensures Parsing(text, 0, 0, [], [])
    {
      AddLine([], 0);
      ScanFromStart(cls, text);
      assert [] + Table(cls, text) == Table(cls, text);
    }

    lemma AtEnd(text: string, t: nat, done: seq<seq<string>>, cur: seq<string>)
      requires Parsing(text, t, len, done, cur)
      ensures ParsedTable(cls, text, len == data.Length) == done + [LastRow(text, t, cur, len == data.Length)]
    {
      assert text[t..len] == text[t..];
      ParsedAtEnd(cls, text, t, done, cur, len == data.Length);
    }

    // The end of the text ends its last word; in a full buffer the terminator takes the last byte.
    method Finish(t: nat, ghost text: string, ghost done: seq<seq<string>>, ghost cur: seq<string>)
      requires Parsing(text, t, len, done, cur)
      modifies this`lines, this`words, this`wordsSize, data
      ensures Valid()
      ensures Describes(data[..], lines, words, done + [LastRow(text, t, cur, len == data.Length)], len + 1)
    {
      if len > t && t < len {
        var e := if len >= data.Length then data.Length - 1 else len;
        CurrentWord(text, t, len, done, cur, e);
        EndWord(t, e, done, cur, text[t..e]);
      }
    }

    // The parser's loop.
    method Run(ghost text: string) returns (t: nat, ghost done: seq<seq<string>>, ghost cur: seq<string>)
      requires Valid() && lines == [] && words == [] && data[..len] == text && Bytes(text)
      modifies this`lines, this`linesSize, this`words, this`wordsSize, data
      ensures Parsing(text, t, len, done, cur)
    {
      done, cur := [], [];
      var s: nat := 0;
      t := 0;
      StartLine(text);
      while s < len
        invariant Parsing(text, t, s, done, cur)
      {
        t, done, cur := Step(s, t, text, done, cur);
        s := s + 1;
      }
    }

    // __procfile_parser
    method Parse()
      requires Valid() && lines == [] && words == [] && Bytes(data[..len])
      modifies this`lines, this`linesSize, this`words, this`wordsSize, data
      ensures Valid()
      ensures Describes(data[..], lines, words, ParsedTable(cls, old(data[..len]), len == data.Length), len + 1)
    {
      ghost var text := data[..len];
      var t, done, cur := Run(text);
      AtEnd(text, t, done, cur);
      Finish(t, text, done, cur);
    }

    // The buffer is reallocated DATA_STEP bytes larger.
    method Grow()
      requires Valid()
      modifies this`data
      ensures Valid() && fresh(data) && data.Length == old(data.Length) + DATA_STEP
      ensures data[..len] == old(data[..len])
    {
      var bigger := new char[data.Length + DATA_STEP](i requires 0 <= i reads this, data => if i < data.Length then data[i] else NUL);
      data := bigger;
    }

    // One turn of the reading loop of procfile_readall.
    method ReadMore() returns (r: int)
      requires Valid() && fd.Valid() && len == fd.pos && data[..len] == fd.content[..len]
      modifies this`data, this`len, data, fd
      ensures Valid() && fd.Valid() && (data == old(data) || fresh(data))
      ensures r >= 0 ==> len == fd.pos == old(len) + r && data[..len] == fd.content[..len]
      ensures r == 0 ==> len == |fd.content| && len < data.Length
      ensures fd.calls == old(fd.calls) + 1 && (r < 0 <==> fd.answers(old(fd.calls)) < 0)
    {
      if len == data.Length {
        Grow();
      }
      ghost var before := data[..len];
      r := fd.Read(data, len, data.Length - len);
      if r >= 0 {
        assert data[..len] == before;
        len := len + r;
      }
    }

    // The reading loop of procfile_readall.
    method Fill() returns (ok: bool)
      requires Valid() && fd.Valid() && fd.pos == 0
      modifies this`data, this`len, data, fd
      ensures Valid() && fd.Valid() && (data == old(data) || fresh(data))
      ensures ok <==> !fd.Failed(old(fd.calls))
      ensures ok ==> len < data.Length && data[..len] == fd.content
    {
      len := 0;
      var r := 1;
      while r > 0
        invariant Valid() && fd.Valid() && (data == old(data) || fresh(data))
        invariant r >= 0 ==> len == fd.pos && data[..len] == fd.content[..len]
        invariant r == 0 ==> len == |fd.content| && len < data.Length
        invariant old(fd.calls) <= fd.calls && (r < 0 <==> fd.Failed(old(fd.calls)))
        decreases if r > 0 then |fd.content| - len + 1 else 0
      {
        r := ReadMore();
      }
      ok := r == 0;
    }

    // procfile_readall: whatever the single reads deliver, the tables describe the whole file.
    method ReadAll() returns (ok: bool)
      requires Valid() && fd.Valid() && fd.pos == 0 && Bytes(fd.content)
      modifies this, data, fd
      ensures ok ==> Valid() && Describes(data[..], lines, words, Table(cls, fd.content), |fd.content| + 1)
      ensures ok ==> fd.Valid() && fd.pos == 0 && (data == old(data) || fresh(data))
      ensures ok <==> !fd.Failed(old(fd.calls))
    {
      ok := Fill();
      if ok {
        fd.Rewind();
        lines, words := [], [];
        assert data[..len] == fd.content;
        Parse();
      }
    }
  }
}
