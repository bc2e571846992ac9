/**
 The smaps reader of utils/os.c: it reads /proc/<pid>/smaps in blocks of at most 4095 bytes, cuts the
 lines out of the block in place, carries an incomplete line over to the next block and adds up the
 resident, proportional and unique set sizes.  The sums added do not depend on the sizes of the blocks.
 */
module Smaps {
  import opened CStrings
  import Decimal
  import FileRead
  import opened Integers

  const BUF_SIZE := 4096
  const MAX_LINE := BUF_SIZE - 1

  // ----- One line

  // The character of a NUL-terminated line.
  function Ch(line: string, i: nat): char {
    if i < |line| then line[i] else NUL
  }

  predicate IsRss(line: string) {
    Ch(line, 0) == 'R' && Ch(line, 1) == 's' && Ch(line, 2) == 's' && Ch(line, 3) == ':'
  }

  predicate IsPss(line: string) {
    && Ch(line, 0) == 'P' && Ch(line, 1) == 's' && Ch(line, 2) == 's'
    && (|| Ch(line, 3) == ':'
        || (Ch(line, 3) == '_' && Ch(line, 4) == 'A' && Ch(line, 5) == 'n' && Ch(line, 6) == 'o'
            && Ch(line, 7) == 'n' && Ch(line, 8) == ':')
        || (Ch(line, 3) == '_' && Ch(line, 4) == 'F' && Ch(line, 5) == 'i' && Ch(line, 6) == 'l'
            && Ch(line, 7) == 'e' && Ch(line, 8) == ':')
        || (Ch(line, 3) == '_' && Ch(line, 4) == 'S' && Ch(line, 5) == 'h' && Ch(line, 6) == 'm'
            && Ch(line, 7) == 'e' && Ch(line, 8) == 'm' && Ch(line, 9) == ':'))
  }

  predicate IsUss(line: string) {
    && Ch(line, 0) == 'P' && Ch(line, 1) == 'r' && Ch(line, 2) == 'i' && Ch(line, 3) == 'v'
    && Ch(line, 4) == 'a' && Ch(line, 5) == 't' && Ch(line, 6) == 'e' && Ch(line, 7) == '_'
    && (Ch(line, 8) == 'C' || Ch(line, 8) == 'D')
  }

  // The checks test for labels.
  lemma RssByLabel(line: string)
    ensures IsRss(line) <==> "Rss:" <= line
  {
    LabelAt("Rss:", line);
  }

  lemma PssByLabel(line: string)
    ensures IsPss(line) <==> "Pss:" <= line || "Pss_Anon:" <= line || "Pss_File:" <= line || "Pss_Shmem:" <= line
  {
    LabelAt("Pss:", line);
    LabelAt("Pss_Anon:", line);
    LabelAt("Pss_File:", line);
    LabelAt("Pss_Shmem:", line);
  }

  lemma UssByLabel(line: string)
    ensures IsUss(line) <==> "Private_C" <= line || "Private_D" <= line
  {
    LabelAt("Private_C", line);
    LabelAt("Private_D", line);
  }

  lemma LabelAt(tag: string, line: string)
    requires NUL !in tag
    ensures tag <= line <==> forall i :: 0 <= i < |tag| ==> Ch(line, i) == tag[i]
  {
    if forall i :: 0 <= i < |tag| ==> Ch(line, i) == tag[i] {
      if tag != "" {
        assert Ch(line, |tag| - 1) == tag[|tag| - 1];
      }
    }
  }

  // The length of the digits at the start.
  function Run(s: string): (n: nat)
    ensures n <= |s|
  {
    if s == "" || !Decimal.IsDigit(s[0]) then 0 else 1 + Run(s[1..])
  }

  // The number a line shows: that of its first numeral whose value is not zero in 64 bits, or zero.
  function Number(s: string): nat
    decreases |s|
  {
    if s == "" then 0
    else if !Decimal.IsDigit(s[0]) then Number(s[1..])
    else
      var v := Decimal.Value(s, 0) % TWO64;
      if v > 0 then v else Number(s[Run(s)..])
  }

  // The same with a numeral begun whose value so far is `x`.
  function NumberFrom(s: string, x: nat): nat {
    var v := Decimal.Value(s, x) % TWO64;
    if v > 0 then v else Number(s[Run(s)..])
  }

  lemma NumberStart(s: string)
    ensures NumberFrom(s, 0) == Number(s)
  {
    assert s[0..] == s;
  }

  lemma NumberStep(s: string, x: nat)
    requires s != ""
    ensures Decimal.IsDigit(s[0]) ==> NumberFrom(s, x) == NumberFrom(s[1..], 10 * x + (s[0] as nat - '0' as nat))
    ensures !Decimal.IsDigit(s[0]) ==> NumberFrom(s, x) == if x % TWO64 > 0 then x % TWO64 else NumberFrom(s[1..], 0)
  {
    if Decimal.IsDigit(s[0]) {
      assert s[Run(s)..] == s[1..][Run(s[1..])..];
    } else {
      assert s[0..] == s;
      NumberStart(s[1..]);
    }
  }

  // __get_mss_val
  method GetValue(buf: array<char>, at: nat, ghost line: string) returns (val: nat)
    requires CString(buf[..], at, line)
    ensures val == Number(line) && val < TWO64
  {
    val := 0;
    ghost var exact: nat := 0;
    var i := 0;
    NumberStart(line);
    CStringAt(buf[..], at, line, 0);
    while buf[at + i] != NUL
      invariant i <= |line| && buf[at + i] == Ch(line, i)
      invariant val == exact % TWO64 && NumberFrom(line[i..], exact) == Number(line)
      decreases |line| - i
    {
      NumberStep(line[i..], exact);
      var c := buf[at + i];
      if Decimal.IsDigit(c) {
        var d := c as nat - '0' as nat;
        Decimal.WrapStep(exact, d);
        val := (val * 10) % TWO64;
        val := (val + d) % TWO64;
        exact := 10 * exact + d;
      } else if val > 0 {
        return;
      } else {
        exact := 0;
      }
      i := i + 1;
      CStringAt(buf[..], at, line, i);
    }
    assert line[i..] == "";
  }

  lemma {:induction false} NumberAfterLabel(tag: string, rest: string)
    requires forall i :: 0 <= i < |tag| ==> !Decimal.IsDigit(tag[i])
    ensures Number(tag + rest) == Number(rest)
  {
    if tag == "" {
      assert tag + rest == rest;
    } else {
      assert (tag + rest)[1..] == tag[1..] + rest;
      NumberAfterLabel(tag[1..], rest);
    }
  }

  lemma {:induction false} RunOf(digits: string, rest: string)
    requires forall i :: 0 <= i < |digits| ==> Decimal.IsDigit(digits[i])
    requires rest == "" || !Decimal.IsDigit(rest[0])
    ensures Run(digits + rest) == |digits|
  {
    if digits == "" {
      assert digits + rest == rest;
    } else {
      assert (digits + rest)[1..] == digits[1..] + rest;
      RunOf(digits[1..], rest);
    }
  }

  lemma NumberShown(n: nat, unit: string)
    requires n < TWO64
    requires forall i :: 0 <= i < |unit| ==> !Decimal.IsDigit(unit[i])
    ensures Number(Decimal.Numeral(n) + unit) == n
  {
    var digits := Decimal.Numeral(n);
    Decimal.PrintedReadsBack(n, unit);
    Decimal.NumeralDigits(n);
    RunOf(digits, unit);
    assert (digits + unit)[|digits|..] == unit;
    assert Number(unit) == 0 by {
      NumberAfterLabel(unit, "");
      assert unit + "" == unit;
    }
  }

  // A line that shows `n` behind a label without digits is read as `n`.
  lemma ShownIsRead(tag: string, n: nat, unit: string)
    requires n < TWO64
    requires forall i :: 0 <= i < |tag| ==> !Decimal.IsDigit(tag[i])
    requires forall i :: 0 <= i < |unit| ==> !Decimal.IsDigit(unit[i])
    ensures Number(tag + Decimal.Numeral(n) + unit) == n
  {
    var shown := Decimal.Numeral(n) + unit;
    assert tag + Decimal.Numeral(n) + unit == tag + shown;
    NumberShown(n, unit);
    NumberAfterLabel(tag, shown);
  }

  // ----- The whole file, line by line

  datatype Sums = Sums(rss: nat, pss: nat, uss: nat)

  function Plus(a: nat, b: nat): nat {
    (a + b) % TWO64
  }

  // What a line adds.
  function AddLine(sums: Sums, line: string): Sums {
    if IsRss(line) then sums.(rss := Plus(sums.rss, Number(line)))
    else if IsPss(line) then sums.(pss := Plus(sums.pss, Number(line)))
    else if IsUss(line) then sums.(uss := Plus(sums.uss, Number(line)))
    else sums
  }

  ghost predicate PssLabel(line: string) {
    "Pss:" <= line || "Pss_Anon:" <= line || "Pss_File:" <= line || "Pss_Shmem:" <= line
  }

  ghost predicate UssLabel(line: string) {
    "Private_C" <= line || "Private_D" <= line
  }

  // Which label feeds which sum; the sums wrap at 64 bits.
  lemma LabelFeeds(sums: Sums, line: string)
    ensures "Rss:" <= line ==> AddLine(sums, line) == sums.(rss := (sums.rss + Number(line)) % 0x1_0000_0000_0000_0000)
    ensures PssLabel(line) ==> AddLine(sums, line) == sums.(pss := (sums.pss + Number(line)) % 0x1_0000_0000_0000_0000)
    ensures UssLabel(line) ==> AddLine(sums, line) == sums.(uss := (sums.uss + Number(line)) % 0x1_0000_0000_0000_0000)
    ensures !("Rss:" <= line) && !PssLabel(line) && !UssLabel(line) ==> AddLine(sums, line) == sums
  {
    RssByLabel(line);
    PssByLabel(line);
    UssByLabel(line);
  }

  function AddLines(sums: Sums, lines: seq<string>): Sums
    decreases |lines|
  {
    if lines == [] then sums else AddLines(AddLine(sums, lines[0]), lines[1..])
  }

  // The lines that end in a newline.
  function Lines(s: string): seq<string> {
    if s == "" then []
    else if s[0] == '\n' then [""] + Lines(s[1..])
    else
      var ls := Lines(s[1..]);
      if ls == [] then [] else [[s[0]] + ls[0]] + ls[1..]
  }

  // The lines in front of the first that does not fit in the buffer with its newline.
  function Fitting(lines: seq<string>): seq<string> {
    if lines == [] || |lines[0]| + 1 > MAX_LINE then [] else [lines[0]] + Fitting(lines[1..])
  }

  function Newline(s: string): (e: int)
    ensures e < 0 ==> forall k :: 0 <= k < |s| ==> s[k] != '\n'
    ensures e >= 0 ==> e < |s| && s[e] == '\n' && forall k :: 0 <= k < e ==> s[k] != '\n'
  {
    if s == "" then -1
    else if s[0] == '\n' then 0
    else
      var e := Newline(s[1..]);
      if e < 0 then -1 else e + 1
  }

  // The sums by taking one line after the other off the front of the file.
  function Total(s: string, sums: Sums): Sums
    decreases |s|
  {
    var e := Newline(s);
    if e < 0 || e + 1 > MAX_LINE then sums else Total(s[e + 1..], AddLine(sums, s[..e]))
  }

  lemma {:induction false} FirstLine(s: string)
    ensures var e := Newline(s);
            Lines(s) == if e < 0 then [] else [s[..e]] + Lines(s[e + 1..])
  {
    if s != "" && s[0] != '\n' {
      FirstLine(s[1..]);
      var e := Newline(s[1..]);
      if e >= 0 {
        assert s[1..][..e] == s[1..e + 1] && s[1..][e + 1..] == s[e + 2..];
        assert [s[0]] + s[1..e + 1] == s[..e + 1];
      }
    }
  }

  lemma {:induction false} TotalIsLineSum(s: string, sums: Sums)
    ensures Total(s, sums) == AddLines(sums, Fitting(Lines(s)))
    decreases |s|
  {
    FirstLine(s);
    var e := Newline(s);
    if e >= 0 && e + 1 <= MAX_LINE {
      var lines := Lines(s[e + 1..]);
      assert ([s[..e]] + lines)[1..] == lines;
      TotalIsLineSum(s[e + 1..], AddLine(sums, s[..e]));
      assert ([s[..e]] + Fitting(lines))[1..] == Fitting(lines);
    }
  }

  // The lines and what is left behind the last newline make up the file.
  function Joined(lines: seq<string>): string {
    if lines == [] then "" else lines[0] + "\n" + Joined(lines[1..])
  }

  lemma {:induction false} LinesMakeFile(s: string) returns (rest: string)
    ensures s == Joined(Lines(s)) + rest && '\n' !in rest
    ensures forall k :: 0 <= k < |Lines(s)| ==> '\n' !in Lines(s)[k]
    decreases |s|
  {
    FirstLine(s);
    var e := Newline(s);
    if e < 0 {
      rest := s;
      assert "" + s == s;
    } else {
      var tail := s[e + 1..];
      rest := LinesMakeFile(tail);
      var lines := [s[..e]] + Lines(tail);
      assert lines[1..] == Lines(tail);
      assert s == s[..e] + "\n" + tail;
      assert s[..e] + "\n" + (Joined(Lines(tail)) + rest) == s[..e] + "\n" + Joined(Lines(tail)) + rest;
    }
  }

  lemma OneLine(line: string, sums: Sums)
    requires '\n' !in line && |line| < 4095
    ensures Total(line + "\n", sums) == AddLine(sums, line)
  {
    var s := line + "\n";
    NewlineIs(s, |line|);
    assert s[..|line|] == line && s[|line| + 1..] == "";
  }

  lemma LabelsStay(tag: string, rest: string)
    ensures "Rss:" <= tag ==> "Rss:" <= tag + rest
    ensures PssLabel(tag) ==> PssLabel(tag + rest)
    ensures UssLabel(tag) ==> UssLabel(tag + rest)
  {
  }

  // The sums with `n` added to the one the label feeds.
  function Fed(sums: Sums, tag: string, n: nat): Sums {
    if "Rss:" <= tag then sums.(rss := (sums.rss + n) % 0x1_0000_0000_0000_0000)
    else if "Pss:" <= tag || "Pss_Anon:" <= tag || "Pss_File:" <= tag || "Pss_Shmem:" <= tag then
      sums.(pss := (sums.pss + n) % 0x1_0000_0000_0000_0000)
    else if "Private_C" <= tag || "Private_D" <= tag then sums.(uss := (sums.uss + n) % 0x1_0000_0000_0000_0000)
    else sums
  }

  lemma LabelFed(sums: Sums, tag: string, rest: string)
    requires "Rss:" <= tag || PssLabel(tag) || UssLabel(tag)
    ensures AddLine(sums, tag + rest) == Fed(sums, tag, Number(tag + rest))
  {
    LabelsStay(tag, rest);
    LabelFeeds(sums, tag + rest);
  }

  // A file of one line with a label adds the number it shows to the sum of the label, and nothing else.
  lemma OneLineFile(tag: string, n: nat, unit: string, sums: Sums)
    requires n < TWO64 && '\n' !in tag && '\n' !in unit
    requires forall i :: 0 <= i < |tag| ==> !Decimal.IsDigit(tag[i])
    requires forall i :: 0 <= i < |unit| ==> !Decimal.IsDigit(unit[i])
    requires |tag + Decimal.Numeral(n) + unit| < 4095 && ("Rss:" <= tag || PssLabel(tag) || UssLabel(tag))
    ensures Total(tag + Decimal.Numeral(n) + unit + "\n", sums) == Fed(sums, tag, n)
  {
    var rest := Decimal.Numeral(n) + unit;
    assert tag + Decimal.Numeral(n) + unit == tag + rest;
    ShownIsRead(tag, n, unit);
    NoNewline(n);
    LabelFed(sums, tag, rest);
    OneLine(tag + rest, sums);
  }

  lemma NoNewline(n: nat)
    ensures '\n' !in Decimal.Numeral(n)
  {
    Decimal.NumeralDigits(n);
  }

  lemma {:induction false} AllFit(lines: seq<string>)
    ensures Fitting(lines) == lines <==> forall i :: 0 <= i < |lines| ==> |lines[i]| + 1 <= 4095
  {
    if lines != [] {
      AllFit(lines[1..]);
      assert lines == [lines[0]] + lines[1..];
      if |lines[0]| + 1 <= MAX_LINE {
        assert Fitting(lines)[1..] == Fitting(lines[1..]);
      }
    }
  }

  // When every line fits with its newline, all of them count.
  lemma TotalOfFittingFile(s: string, sums: Sums)
    requires forall i :: 0 <= i < |Lines(s)| ==> |Lines(s)[i]| + 1 <= 4095
    ensures Total(s, sums) == AddLines(sums, Lines(s))
  {
    TotalIsLineSum(s, sums);
    AllFit(Lines(s));
  }

  // ----- The blocks

  lemma NewlineIs(s: string, e: nat)
    requires e < |s| && s[e] == '\n' && forall k :: 0 <= k < e ==> s[k] != '\n'
    ensures Newline(s) == e
  {
    var f := Newline(s);
    assert f >= 0 && !(f < e) && !(e < f);
  }

  // A line that does not fit hides itself and everything behind it.
  lemma LongLineHides(line: string, rest: string, sums: Sums)
    requires '\n' !in line && |line| + 1 > 4095
    ensures Total(line + "\n" + rest, sums) == sums
  {
    NewlineIs(line + "\n" + rest, |line|);
  }

  // A line that ends in the block is the first line of the rest of the file.
  lemma TotalTakes(s: string, more: string, sums: Sums)
    requires Newline(s) >= 0 && |s| <= MAX_LINE
    ensures var e := Newline(s);
            Total(s + more, sums) == Total(s[e + 1..] + more, AddLine(sums, s[..e]))
  {
    var e := Newline(s);
    assert (s + more)[..e] == s[..e];
    NewlineIs(s + more, e);
    assert (s + more)[e + 1..] == s[e + 1..] + more;
  }

  // At the end of the file, or with the buffer full, there is no further line to take.
  lemma TotalEnds(s: string, more: string, sums: Sums)
    requires Newline(s) < 0 && (more == "" || |s| == MAX_LINE)
    ensures Total(s + more, sums) == sums
  {
    assert forall k :: 0 <= k < |s| ==> (s + more)[k] == s[k] != '\n';
  }

  ghost predicate Suffix(a: string, b: string) {
    |a| <= |b| && a == b[|b| - |a|..]
  }

  lemma SuffixOfSuffix(a: string, b: string, c: string)
    requires Suffix(a, b) && Suffix(b, c)
    ensures Suffix(a, c)
  {
  }

  // strchr for the newline
  method FindNewline(buf: array<char>, at: nat, ghost text: string) returns (e: int)
    requires CString(buf[..], at, text)
    ensures e == Newline(text)
  {
    var i := 0;
    CStringAt(buf[..], at, text, 0);
    while buf[at + i] != NUL
      invariant i <= |text| && buf[at + i] == Ch(text, i)
      invariant forall k :: 0 <= k < i ==> text[k] != '\n'
      decreases |text| - i
    {
      if buf[at + i] == '\n' {
        NewlineIs(text, i);
        return i;
      }
      i := i + 1;
      CStringAt(buf[..], at, text, i);
    }
    e := -1;
  }

  // struct smaps_info
  class SmapsInfo {
    var fd: FileRead.File?
    var rss: nat
    var pss: nat
    var uss: nat

    ghost function Sum(): Sums
      reads this`rss, this`pss, this`uss
    {
      Sums(rss, pss, uss)
    }

    // The tag of the line chooses the sum its value goes to.
    method ParseLine(buf: array<char>, at: nat, ghost line: string)
      requires CString(buf[..], at, line)
      modifies this`rss, this`pss, this`uss
      ensures Sum() == AddLine(old(Sum()), line)
    {
      var text := Read(buf, at, line);
      if IsRss(text) {
        var v := GetValue(buf, at, line);
        rss := (rss + v) % TWO64;
      } else if IsPss(text) {
        var v := GetValue(buf, at, line);
        pss := (pss + v) % TWO64;
      } else if IsUss(text) {
        var v := GetValue(buf, at, line);
        uss := (uss + v) % TWO64;
      }
    }

    // Cut off the line that ends at `e` and add it.
    method TakeLine(buf: array<char>, at: nat, e: nat, ghost text: string)
      requires CString(buf[..], at, text) && e == Newline(text)
      modifies this`rss, this`pss, this`uss, buf
      ensures CString(buf[..], at + e + 1, text[e + 1..]) && Sum() == AddLine(old(Sum()), text[..e])
    {
      ghost var before := buf[..];
      CStringAt(before, at, text, e + 1);
      assert before[at..at + e] == text[..e] by {
        assert before[at..at + |text|][..e] == before[at..at + e];
      }
      buf[at + e] := NUL;
      assert buf[at..at + e] == before[at..at + e];
      assert buf[at + e + 1..at + |text|] == before[at + e + 1..at + |text|];
      ParseLine(buf, at, text[..e]);
    }

    // One turn of the inner loop, with `text` left of the `block`; `left` is what the turn leaves.
    method TakeNext(buf: array<char>, at: nat, e: nat, ghost block: string, ghost text: string, ghost more: string, ghost goal: Sums)
      returns (ghost left: string)
      requires CString(buf[..], at, text) && e == Newline(text) && |text| <= MAX_LINE
      requires Suffix(text, block) && Total(text + more, Sum()) == goal
      modifies this`rss, this`pss, this`uss, buf
      ensures |left| == |text| - (e + 1) && Suffix(left, block)
      ensures CString(buf[..], at + e + 1, left)
      ensures Total(left + more, Sum()) == goal
    {
      left := text[e + 1..];
      SuffixOfSuffix(left, text, block);
      TotalTakes(text, more, Sum());
      TakeLine(buf, at, e, text);
    }

    // The inner loop, on a block that holds `text`; `more` is what the file has behind it and `goal`
    // the sums of the whole file.  What is `left` of the block has no newline and lies at `cursor`.
    method TakeLines(buf: array<char>, ghost text: string, ghost more: string, n: nat, ghost goal: Sums)
      returns (rest: nat, cursor: nat, ghost left: string)
      requires CString(buf[..], 0, text) && n == |text| <= MAX_LINE
      requires Total(text + more, Sum()) == goal
      modifies this`rss, this`pss, this`uss, buf
      ensures Newline(left) < 0 && rest == |left| && Suffix(left, text)
      ensures rest > 0 ==> CString(buf[..], cursor, left)
      ensures Total(left + more, Sum()) == goal
    {
      rest, cursor, left := n, 0, text;
      var e := FindNewline(buf, 0, text);
      while e >= 0
        invariant rest == |left| && Suffix(left, text) && e == Newline(left)
        invariant CString(buf[..], cursor, left)
        invariant Total(left + more, Sum()) == goal
        decreases rest
      {
        left := TakeNext(buf, cursor, e, text, left, more, goal);
        rest := rest - (e + 1);
        if rest > 0 {
          cursor := cursor + e + 1;
          e := FindNewline(buf, cursor, left);
        } else {
          return;
        }
      }
    }

    // memmove to the start of the buffer
    static method MoveToStart(buf: array<char>, cursor: nat, rest: nat)
      requires cursor + rest <= buf.Length
      modifies buf
      ensures buf[..rest] == old(buf[cursor..cursor + rest])
    {
      forall i | 0 <= i < rest {
        buf[i] := buf[cursor + i];
      }
    }

    // Between two blocks the buffer holds the last bytes read, an incomplete line.
    ghost predicate Reading(buf: array<char>, f: FileRead.File, left: string, goal: Sums)
      reads this, buf, f
    {
      && f.Valid() && |left| <= MAX_LINE < buf.Length && |left| <= f.pos
      && left == f.content[f.pos - |left|..f.pos]
      && buf[..|left|] == left && Newline(left) < 0
      && Total(left + f.content[f.pos..], Sum()) == goal
    }

    // The lines of a block of `n` bytes.
    method TakeBlock(buf: array<char>, n: nat, ghost text: string, ghost more: string, ghost goal: Sums)
      returns (rest: nat, ghost left: string)
      requires n == |text| <= MAX_LINE < buf.Length && buf[..n] == text && NUL !in text
      requires Total(text + more, Sum()) == goal
      modifies this`rss, this`pss, this`uss, buf
      ensures Newline(left) < 0 && rest == |left| && Suffix(left, text)
      ensures buf[..rest] == left
      ensures Total(left + more, Sum()) == goal
    {
      buf[n] := NUL;
      assert buf[0..n] == text;
      var cursor;
      rest, cursor, left := TakeLines(buf, text, more, n, goal);
      if rest > 0 {
        MoveToStart(buf, cursor, rest);
      }
    }

    // What a read of `r` bytes makes of the file: it moves the text behind `left` in front.
    static lemma AfterRead(c: string, left: string, p: nat, r: nat)
      requires |left| <= p && p + r <= |c| && left == c[p - |left|..p]
      ensures left + c[p..p + r] == c[p - |left|..p + r]
      ensures left + c[p..] == c[p - |left|..p + r] + c[p + r..]
    {
    }

    // The read itself: it puts more of the file behind `left`.
    static method ReadText(buf: array<char>, f: FileRead.File, rest: nat, ghost left: string)
      returns (r: int, ghost text: string)
      requires f.Valid() && rest == |left| <= MAX_LINE && buf.Length == BUF_SIZE && buf[..rest] == left
      requires rest <= f.pos && left == f.content[f.pos - rest..f.pos]
      modifies buf, f
      ensures f.Valid() && text + f.content[f.pos..] == left + f.content[old(f.pos)..]
      ensures r > 0 ==> f.pos == old(f.pos) + r && rest + r == |text| <= MAX_LINE && buf[..rest + r] == text
      ensures r > 0 ==> |text| <= f.pos && text == f.content[f.pos - |text|..f.pos]
      ensures r == 0 ==> text == left && (f.content[f.pos..] == "" || |text| == MAX_LINE)
      ensures f.calls == old(f.calls) + 1 && (r < 0 <==> f.answers(old(f.calls)) < 0)
    {
      ghost var c, p := f.content, f.pos;
      text := left;
      r := f.Read(buf, rest, BUF_SIZE - rest - 1);
      if r > 0 {
        text := c[p - rest..p + r];
        AfterRead(c, left, p, r);
        assert buf[..rest + r] == text;
      }
    }

    // One read and the lines of its block.
    method ReadBlock(buf: array<char>, f: FileRead.File, rest: nat, ghost left: string, ghost goal: Sums)
      returns (r: int, rest': nat, ghost left': string)
      requires Reading(buf, f, left, goal) && rest == |left| && NUL !in f.content && buf.Length == BUF_SIZE
      modifies this`rss, this`pss, this`uss, buf, f
      ensures rest' == |left'|
      ensures r > 0 ==> Reading(buf, f, left', goal) && f.pos == old(f.pos) + r
      ensures r == 0 ==> Sum() == goal
      ensures f.calls == old(f.calls) + 1 && (r < 0 <==> f.answers(old(f.calls)) < 0)
    {
      rest', left' := rest, left;
      ghost var text;
      r, text := ReadText(buf, f, rest, left);
      if r > 0 {
        rest', left' := TakeBlock(buf, rest + r, text, f.content[f.pos..], goal);
      } else if r == 0 {
        TotalEnds(text, f.content[f.pos..], Sum());
      }
    }

    // The block loop.
    method ReadBlocks(buf: array<char>, f: FileRead.File) returns (ok: bool)
      requires f.Valid() && f.pos == 0 && NUL !in f.content && buf.Length == BUF_SIZE
      modifies this`rss, this`pss, this`uss, buf, f
      ensures ok ==> Sum() == Total(f.content, old(Sum()))
      ensures ok <==> !f.Failed(old(f.calls))
    {
      ghost var goal, left := Total(f.content, Sum()), "";
      assert left + f.content[0..] == f.content;
      var rest, r := 0, 1;
      while r > 0
        invariant rest == |left| && (r > 0 ==> Reading(buf, f, left, goal))
        invariant r == 0 ==> Sum() == goal
        invariant old(f.calls) <= f.calls && (r < 0 <==> f.Failed(old(f.calls)))
        decreases if r > 0 then |f.content| - f.pos + 1 else 0
      {
        r, rest, left := ReadBlock(buf, f, rest, left, goal);
      }
      ok := r == 0;
    }

    // get_mss_from_smaps; `smaps` is the file that opening /proc/<pid>/smaps or smaps_rollup gives, if
    // any.  The sums of a file that stays open from the last call are added to those of that call.
    method GetMss(smaps: FileRead.File?) returns (r: int)
      requires smaps != null ==> smaps.Valid() && smaps.pos == 0 && NUL !in smaps.content
      requires fd != null ==> fd.Valid() && NUL !in fd.content
      modifies this, fd, smaps
      ensures r == 0 || r == -1
      ensures var f := if old(fd) == null then smaps else old(fd);
              && (r == 0 <==> f != null && !f.Failed(old(f.calls)))
              && (r == 0 ==> fd == f && Sum() == Total(f.content, if old(fd) == null then Sums(0, 0, 0) else old(Sum())))
      ensures r == -1 ==> fd == null
    {
      if fd == null {
        rss, pss, uss := 0, 0, 0;
        if smaps == null {
          return -1;
        }
        fd := smaps;
      } else {
        fd.Rewind();
      }
      var buf := new char[BUF_SIZE];
      var ok := ReadBlocks(buf, fd);
      if !ok {
        fd := null;
        return -1;
      }
      r := 0;
    }
  }
}
