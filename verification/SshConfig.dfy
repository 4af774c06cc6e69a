/** cmd/sandbox-forward/sshsetup.go: replacing one Host block of an ssh config.
    A string here is a Go byte string: each char stands for one byte. */
module SshConfig {
  import opened Text
  import ShellQuote

  // ---- Host lines ---------------------------------------------------------

  predicate Blank(c: char) {
    c == ' ' || c == '\t'
  }

  function Fold(c: char): char {
    if 'A' <= c <= 'Z' then ((c as int) + 32) as char else c
  }

  predicate IsHostLine(ln: string) {
    var t := TrimLeft(Blank, ln);
    |t| >= 5 && Fold(t[0]) == 'h' && Fold(t[1]) == 'o' && Fold(t[2]) == 's' && Fold(t[3]) == 't' && Blank(t[4])
  }

  function UntilBlank(s: string): string {
    if s == "" || Blank(s[0]) then "" else [s[0]] + UntilBlank(s[1..])
  }

  /** The first pattern of a Host line. */
  function HostLineName(ln: string): string
    requires IsHostLine(ln)
  {
    UntilBlank(TrimLeft(Blank, TrimLeft(Blank, ln)[5..]))
  }

  predicate Names(ln: string, name: string) {
    IsHostLine(ln) && HostLineName(ln) == name
  }

  // ---- finding the block --------------------------------------------------

  /** The first line from i on that opens the block of name, or |lines|. */
  function Opening(lines: seq<string>, name: string, i: nat): (r: nat)
    requires i <= |lines|
    ensures i <= r <= |lines|
    ensures forall j :: i <= j < r ==> !Names(lines[j], name)
    ensures r < |lines| ==> Names(lines[r], name)
    decreases |lines| - i
  {
    if i == |lines| || Names(lines[i], name) then i else Opening(lines, name, i + 1)
  }

  /** The first Host line from i on, or |lines|. */
  function NextHost(lines: seq<string>, i: nat): (r: nat)
    requires i <= |lines|
    ensures i <= r <= |lines|
    ensures forall j :: i <= j < r ==> !IsHostLine(lines[j])
    ensures r < |lines| ==> IsHostLine(lines[r])
    decreases |lines| - i
  {
    if i == |lines| || IsHostLine(lines[i]) then i else NextHost(lines, i + 1)
  }

  method FindHostBlock(lines: seq<string>, name: string) returns (start: int, end: int)
    ensures var s := Opening(lines, name, 0);
      if s == |lines| then start == -1 && end == -1 else start == s && end == NextHost(lines, s + 1)
  {
    start := -1;
    for i := 0 to |lines|
      invariant -1 <= start < i
      invariant start < 0 ==> Opening(lines, name, 0) == Opening(lines, name, i)
      invariant start >= 0 ==> Opening(lines, name, 0) == start < |lines|
      invariant start >= 0 ==> NextHost(lines, start + 1) == NextHost(lines, i)
    {
      if !IsHostLine(lines[i]) {
        continue;
      }
      var got := HostLineName(lines[i]);
      if start < 0 && got == name {
        start := i;
        continue;
      }
      if start >= 0 {
        return start, i;
      }
    }
    if start >= 0 {
      return start, |lines|;
    }
    return -1, -1;
  }

  // ---- replacing it -------------------------------------------------------

  /** What writeLines emits for lines[from..until]. */
  function Written(lines: seq<string>, from: nat, until: nat): string
    requires from <= until <= |lines|
    decreases until
  {
    if from == until then ""
    else
      Written(lines, from, until - 1)
      + if until == |lines| then lines[until - 1] else lines[until - 1] + "\n"
  }

  method WriteLines(out0: string, lines: seq<string>, from: nat, until: nat) returns (out: string)
    requires from <= until <= |lines|
    ensures out == out0 + Written(lines, from, until)
  {
    out := out0;
    for i := from to until
      invariant out == out0 + Written(lines, from, i)
    {
      if i == |lines| - 1 && lines[i] == "" {
        continue;
      }
      out := out + lines[i];
      if i < |lines| - 1 {
        out := out + "\n";
      }
    }
  }

  predicate EndsWith(s: string, suffix: string) {
    |s| >= |suffix| && s[|s| - |suffix|..] == suffix
  }

  function WithNewline(s: string): string {
    if EndsWith(s, "\n") then s else s + "\n"
  }

  function Appended(existing: string, newBlock: string): string {
    existing
    + (if EndsWith(existing, "\n") then "" else "\n")
    + (if !EndsWith(existing, "\n\n") && existing != "" then "\n" else "")
    + newBlock
  }

  function Spliced(lines: seq<string>, start: nat, end: nat, newBlock: string): string
    requires start <= end <= |lines|
  {
    WithNewline(Written(lines, 0, start) + newBlock + Written(lines, end, |lines|))
  }

  /** What replaceHostBlock returns. */
  function Replaced(existing: string, name: string, newBlock: string): string {
    if existing == "" then newBlock
    else
      var lines := Split(existing, '\n');
      var s := Opening(lines, name, 0);
      if s == |lines| then Appended(existing, newBlock)
      else Spliced(lines, s, NextHost(lines, s + 1), newBlock)
  }

  method AppendHostBlock(existing: string, newBlock: string) returns (out: string)
    ensures out == Appended(existing, newBlock)
  {
    out := existing;
    if !EndsWith(existing, "\n") {
      out := out + "\n";
    }
    if !EndsWith(existing, "\n\n") && |existing| > 0 {
      out := out + "\n";
    }
    out := out + newBlock;
  }

  method SpliceHostBlock(lines: seq<string>, start: nat, end: nat, newBlock: string) returns (out: string)
    requires start <= end <= |lines|
    ensures out == Spliced(lines, start, end, newBlock)
  {
    out := WriteLines("", lines, 0, start);
    out := out + newBlock;
    out := WriteLines(out, lines, end, |lines|);
    assert out == Written(lines, 0, start) + newBlock + Written(lines, end, |lines|);
    if !EndsWith(out, "\n") {
      out := out + "\n";
    }
  }

  method ReplaceHostBlock(existing: string, name: string, newBlock: string) returns (out: string)
    ensures out == Replaced(existing, name, newBlock)
  {
    if |existing| == 0 {
      return newBlock;
    }
    var lines := Split(existing, '\n');
    var start, end := FindHostBlock(lines, name);
    if start < 0 {
      out := AppendHostBlock(existing, newBlock);
    } else {
      out := SpliceHostBlock(lines, start, end, newBlock);
    }
  }

  // ---- the same, line by line ---------------------------------------------

  predicate NoNewlines(lines: seq<string>) {
    forall i :: 0 <= i < |lines| ==> '\n' !in lines[i]
  }

  /** A text of newline-terminated lines. */
  function Render(lines: seq<string>): string {
    if lines == [] then "" else Render(lines[..|lines| - 1]) + lines[|lines| - 1] + "\n"
  }

  /** The lines of a text, with or without its final newline. */
  function LinesOf(text: string): seq<string> {
    var parts := Split(text, '\n');
    if parts[|parts| - 1] == "" then parts[..|parts| - 1] else parts
  }

  /** The separator the append case puts in front of a new block. */
  function Separator(lines: seq<string>): seq<string> {
    if lines == [] || (|lines| >= 2 && lines[|lines| - 1] == "") then [] else [""]
  }

  /** replaceHostBlock on lines: the block of name gives way to the new one, everything else stays
      in place; without such a block the new one goes to the end. */
  function ReplacedLines(lines: seq<string>, name: string, block: seq<string>): seq<string> {
    var s := Opening(lines, name, 0);
    if s == |lines| then lines + Separator(lines) + block
    else lines[..s] + block + lines[NextHost(lines, s + 1)..]
  }

  /** A block: its first line is the only Host line and names the host. */
  ghost predicate Block(block: seq<string>, name: string) {
    && NoNewlines(block)
    && |block| >= 1 && Names(block[0], name)
    && forall i :: 1 <= i < |block| ==> !IsHostLine(block[i])
  }

  /** How many blocks of name there are. */
  function Count(lines: seq<string>, name: string): nat {
    if lines == [] then 0 else Count(lines[..|lines| - 1], name) + if Names(lines[|lines| - 1], name) then 1 else 0
  }

  lemma BlankIsNoHost()
    ensures !IsHostLine("")
  {}

  // ---- idempotence on lines -----------------------------------------------

  lemma OpeningIs(lines: seq<string>, name: string, s: nat)
    requires s <= |lines|
    requires forall j :: 0 <= j < s ==> !Names(lines[j], name)
    requires s < |lines| ==> Names(lines[s], name)
    ensures Opening(lines, name, 0) == s
  {
    var r := Opening(lines, name, 0);
    assert s < |lines| ==> r <= s;
    assert r < |lines| ==> s <= r;
  }

  lemma NextHostIs(lines: seq<string>, i: nat, e: nat)
    requires i <= e <= |lines|
    requires forall j :: i <= j < e ==> !IsHostLine(lines[j])
    requires e < |lines| ==> IsHostLine(lines[e])
    ensures NextHost(lines, i) == e
  {
    var r := NextHost(lines, i);
    assert e < |lines| ==> r <= e;
    assert r < |lines| ==> e <= r;
  }

  /** A file whose block of name is exactly `block` is left alone. */
  lemma ReplaceFixed(before: seq<string>, block: seq<string>, after: seq<string>, name: string)
    requires Block(block, name)
    requires forall j :: 0 <= j < |before| ==> !Names(before[j], name)
    requires after == [] || IsHostLine(after[0])
    ensures ReplacedLines(before + block + after, name, block) == before + block + after
  {
    hide IsHostLine, Names;
    var lines := before + block + after;
    var s, e := |before|, |before| + |block|;
    assert lines[s] == block[0];
    OpeningIs(lines, name, s);
    forall j | s + 1 <= j < e ensures !IsHostLine(lines[j]) {
      assert lines[j] == block[j - s];
    }
    NextHostIs(lines, s + 1, e);
    assert lines[..s] == before && lines[e..] == after;
  }

  lemma ReplaceTwice(lines: seq<string>, name: string, block: seq<string>)
    requires Block(block, name)
    ensures ReplacedLines(ReplacedLines(lines, name, block), name, block) == ReplacedLines(lines, name, block)
  {
    hide IsHostLine, HostLineName;
    var s := Opening(lines, name, 0);
    if s == |lines| {
      BlankIsNoHost();
      var before := lines + Separator(lines);
      forall j | 0 <= j < |before| ensures !Names(before[j], name) {
        assert j >= |lines| ==> before[j] == "";
      }
      assert before + block + [] == before + block;
      ReplaceFixed(before, block, [], name);
    } else {
      ReplaceFixed(lines[..s], block, lines[NextHost(lines, s + 1)..], name);
    }
  }

  lemma {:induction false} CountConcat(a: seq<string>, b: seq<string>, name: string)
    ensures Count(a + b, name) == Count(a, name) + Count(b, name)
  {
    hide Names;
    if b == [] {
      assert a + b == a;
    } else {
      CountConcat(a, b[..|b| - 1], name);
      assert (a + b)[..|a + b| - 1] == a + b[..|b| - 1];
    }
  }

  lemma {:induction false} CountNone(lines: seq<string>, name: string)
    requires forall j :: 0 <= j < |lines| ==> !Names(lines[j], name)
    ensures Count(lines, name) == 0
  {
    hide Names;
    if lines != [] {
      CountNone(lines[..|lines| - 1], name);
    }
  }

  lemma CountBlock(block: seq<string>, name: string)
    requires |block| >= 1 && Names(block[0], name)
    requires forall i :: 1 <= i < |block| ==> !IsHostLine(block[i])
    ensures Count(block, name) == 1
  {
    hide IsHostLine, HostLineName;
    assert block == [block[0]] + block[1..];
    CountConcat([block[0]], block[1..], name);
    forall j | 0 <= j < |block[1..]| ensures !Names(block[1..][j], name) {
      assert !IsHostLine(block[j + 1]);
    }
    CountNone(block[1..], name);
    assert [block[0]][..0] == [];
  }

  /** Replacing keeps the number of blocks of that host, except that none becomes one. */
  lemma ReplaceCounts(lines: seq<string>, name: string, block: seq<string>)
    requires Block(block, name)
    ensures Count(ReplacedLines(lines, name, block), name)
         == if Count(lines, name) == 0 then 1 else Count(lines, name)
  {
    hide IsHostLine, HostLineName, Count;
    var s := Opening(lines, name, 0);
    CountBlock(block, name);
    if s == |lines| {
      CountNone(lines, name);
      BlankIsNoHost();
      CountNone(Separator(lines), name);
      CountConcat(lines, Separator(lines), name);
      CountConcat(lines + Separator(lines), block, name);
    } else {
      var e := NextHost(lines, s + 1);
      assert lines == lines[..s] + lines[s..e] + lines[e..];
      CountConcat(lines[..s] + lines[s..e], lines[e..], name);
      CountConcat(lines[..s], lines[s..e], name);
      CountConcat(lines[..s] + block, lines[e..], name);
      CountConcat(lines[..s], block, name);
      CountBlock(lines[s..e], name);
    }
  }

  // ---- texts and lines ----------------------------------------------------

  lemma {:induction false} RenderConcat(a: seq<string>, b: seq<string>)
    ensures Render(a + b) == Render(a) + Render(b)
  {
    if b == [] {
      assert a + b == a;
    } else {
      RenderConcat(a, b[..|b| - 1]);
      LastOfConcat(a, b);
      RenderSnoc(a + b);
      RenderSnoc(b);
      hide Render;
      Assoc(Render(a), Render(b[..|b| - 1]), b[|b| - 1] + "\n");
    }
  }

  lemma RenderSnoc(lines: seq<string>)
    requires lines != []
    ensures Render(lines) == Render(lines[..|lines| - 1]) + (lines[|lines| - 1] + "\n")
  {
    Assoc(Render(lines[..|lines| - 1]), lines[|lines| - 1], "\n");
  }

  lemma RenderOne(x: string)
    ensures Render([x]) == x + "\n"
  {
    assert [x][..0] == [];
    assert Render([x][..0]) == "";
  }

  lemma {:induction false} SplitRender(lines: seq<string>)
    requires NoNewlines(lines)
    ensures Split(Render(lines), '\n') == lines + [""]
  {
    if lines == [] {
      SplitCons("", "", '\n');
    } else {
      var rest := lines[1..];
      assert lines == [lines[0]] + rest;
      RenderConcat([lines[0]], rest);
      RenderOne(lines[0]);
      SplitRender(rest);
      SplitCons(lines[0], Render(rest), '\n');
      assert Render(lines) == lines[0] + ['\n'] + Render(rest);
    }
  }

  lemma LinesOfRender(lines: seq<string>)
    requires NoNewlines(lines)
    ensures LinesOf(Render(lines)) == lines
  {
    SplitRender(lines);
  }

  lemma PrependLine(head: string, rest: seq<string>)
    requires rest != []
    ensures var parts := [head] + rest;
      Render(parts[..|parts| - 1]) + parts[|parts| - 1]
        == head + "\n" + (Render(rest[..|rest| - 1]) + rest[|rest| - 1])
  {
    hide Render;
    var parts := [head] + rest;
    assert parts[..|parts| - 1] == [head] + rest[..|rest| - 1];
    RenderConcat([head], rest[..|rest| - 1]);
    RenderOne(head);
  }

  lemma SplitNoNewlines(s: string)
    ensures NoNewlines(Split(s, '\n'))
  {
    var parts := Split(s, '\n');
    forall k | 0 <= k < |parts| ensures '\n' !in parts[k] {
      assert parts[k] in parts;
    }
  }

  lemma RenderNothing()
    ensures Render([]) == ""
  {}

  lemma CutAtNewline(s: string)
    ensures var i := Index(s, '\n');
      i <= |s| && (i < |s| ==> s == s[..i] + "\n" + s[i + 1..])
  {
    var i := Index(s, '\n');
    hide Index;
    if i < |s| {
      assert [s[i]] == "\n";
      CutAt(s, i);
    }
  }

  /** A text is its complete lines followed by its unterminated last one. */
  lemma {:induction false} TextIsRendered(s: string)
    ensures var parts := Split(s, '\n');
      NoNewlines(parts) && s == Render(parts[..|parts| - 1]) + parts[|parts| - 1]
    decreases |s|
  {
    hide Render, Split, Index;
    SplitNoNewlines(s);
    SplitFirst(s, '\n');
    CutAtNewline(s);
    var i := Index(s, '\n');
    if i < |s| {
      TextIsRendered(s[i + 1..]);
      PrependLine(s[..i], Split(s[i + 1..], '\n'));
    } else {
      RenderNothing();
      assert [s][..0] == [];
    }
  }

  lemma {:induction false} WrittenPrefix(lines: seq<string>, from: nat, until: nat)
    requires from <= until < |lines|
    ensures Written(lines, from, until) == Render(lines[from..until])
    decreases until
  {
    if from < until {
      WrittenPrefix(lines, from, until - 1);
      assert lines[from..until][..until - 1 - from] == lines[from..until - 1];
    }
  }

  lemma WrittenTail(lines: seq<string>, from: nat)
    requires from < |lines|
    ensures Written(lines, from, |lines|) == Render(lines[from..|lines| - 1]) + lines[|lines| - 1]
  {
    WrittenPrefix(lines, from, |lines| - 1);
  }

  lemma NewlineAtEnd(s: string, last: string)
    requires '\n' !in last && last != ""
    ensures !EndsWith(s + last, "\n")
  {
    assert (s + last)[|s + last| - 1] == last[|last| - 1];
  }

  lemma RenderEnds(lines: seq<string>)
    requires lines != []
    ensures EndsWith(Render(lines), "\n")
  {}

  /** The empty last piece of a newline-terminated text never matters to the search. */
  lemma SearchIgnoresLastEmpty(lines: seq<string>, name: string)
    ensures var more := lines + [""];
      var s := Opening(lines, name, 0);
      Opening(more, name, 0) == (if s == |lines| then |more| else s)
      && (s < |lines| ==>
            var e := NextHost(lines, s + 1);
            NextHost(more, s + 1) == if e == |lines| then |more| else e)
  {
    hide IsHostLine, HostLineName;
    BlankIsNoHost();
    var more := lines + [""];
    var s := Opening(lines, name, 0);
    OpeningIs(more, name, if s == |lines| then |more| else s);
    if s < |lines| {
      var e := NextHost(lines, s + 1);
      NextHostIs(more, s + 1, if e == |lines| then |more| else e);
    }
  }

  /** The pieces of a text are its lines, plus an empty one when it ends in a newline. */
  lemma PiecesAndLines(text: string)
    ensures var parts, lines := Split(text, '\n'), LinesOf(text);
      && (parts == lines || parts == lines + [""])
      && (parts == lines ==>
            && lines != [] && lines[|lines| - 1] != ""
            && text + "\n" == Render(lines) && !EndsWith(text, "\n"))
      && (parts != lines ==> text == Render(lines) && (EndsWith(text, "\n") <==> text != ""))
      && NoNewlines(lines)
  {
    hide Split;
    TextIsRendered(text);
    var parts := Split(text, '\n');
    var n := |parts| - 1;
    assert parts == parts[..n] + [parts[n]];
    hide Render, EndsWith;
    if parts[n] == "" {
      TerminatedText(text, parts[..n]);
    } else {
      UnterminatedText(text, parts[..n], parts[n]);
    }
  }

  lemma UnterminatedText(text: string, lines: seq<string>, last: string)
    requires text == Render(lines) + last && last != "" && '\n' !in last
    ensures text + "\n" == Render(lines + [last]) && !EndsWith(text, "\n")
  {
    hide Render;
    NewlineAtEnd(Render(lines), last);
    RenderConcat(lines, [last]);
    RenderOne(last);
  }

  lemma TerminatedText(text: string, lines: seq<string>)
    requires text == Render(lines)
    ensures EndsWith(text, "\n") <==> text != ""
  {
    if lines != [] {
      RenderEnds(lines);
    }
  }

  lemma SplicedText(text: string, name: string, block: seq<string>)
    requires Block(block, name) && text != ""
    requires Opening(LinesOf(text), name, 0) < |LinesOf(text)|
    ensures Replaced(text, name, Render(block)) == Render(ReplacedLines(LinesOf(text), name, block))
  {
    hide IsHostLine, HostLineName, Split, Render, LinesOf, EndsWith, Written, WithNewline;
    var parts, lines := Split(text, '\n'), LinesOf(text);
    PiecesAndLines(text);
    SearchIgnoresLastEmpty(lines, name);
    var s := Opening(lines, name, 0);
    var e := NextHost(lines, s + 1);
    WrittenPrefix(parts, 0, s);
    assert parts[0..s] == lines[..s];
    RenderThree(lines[..s], block, lines[e..]);
    var head := Render(lines[..s]) + Render(block);
    SplicedEnd(parts, lines, e, head);
  }

  lemma RenderThree(a: seq<string>, b: seq<string>, c: seq<string>)
    requires b != []
    ensures Render(a + b + c) == Render(a) + Render(b) + Render(c)
    ensures EndsWith(Render(a) + Render(b), "\n")
  {
    hide Render;
    RenderConcat(a + b, c);
    RenderConcat(a, b);
    RenderEnds(a + b);
  }

  /** The text after the replaced block, normalised. */
  lemma SplicedEnd(parts: seq<string>, lines: seq<string>, e: nat, head: string)
    requires NoNewlines(lines) && e <= |lines| && EndsWith(head, "\n")
    requires parts == lines + [""] || (parts == lines && lines != [] && lines[|lines| - 1] != "")
    ensures var from := if e == |lines| then |parts| else e;
      WithNewline(head + Written(parts, from, |parts|)) == head + Render(lines[e..])
  {
    hide Render, EndsWith, WithNewline;
    if e == |lines| {
      assert lines[e..] == [];
      RenderNothing();
      SplicedTail(head, "");
      assert Written(parts, |parts|, |parts|) == "";
    } else {
      WrittenTail(parts, e);
      SplicedRest(parts, lines, e, head);
    }
  }

  lemma SplicedTail(head: string, tail: string)
    requires EndsWith(head, "\n") && (tail == "" || EndsWith(tail, "\n"))
    ensures WithNewline(head + tail) == head + tail
  {
    if tail == "" {
      assert head + tail == head;
    } else {
      assert (head + tail)[|head + tail| - 1] == tail[|tail| - 1];
    }
  }

  lemma SplicedRest(parts: seq<string>, lines: seq<string>, e: nat, head: string)
    requires NoNewlines(lines) && e < |lines| && EndsWith(head, "\n")
    requires parts == lines + [""] || (parts == lines && lines[|lines| - 1] != "")
    ensures WithNewline(head + (Render(parts[e..|parts| - 1]) + parts[|parts| - 1])) == head + Render(lines[e..])
  {
    var n := |parts| - 1;
    if parts == lines + [""] {
      assert parts[e..n] == lines[e..] && Render(parts[e..n]) + parts[n] == Render(lines[e..]);
      RenderEnds(lines[e..]);
      SplicedTail(head, Render(lines[e..]));
    } else {
      assert lines[e..] == parts[e..n] + [parts[n]];
      RenderConcat(parts[e..n], [parts[n]]);
      RenderOne(parts[n]);
      var s := head + Render(parts[e..n]);
      assert head + (Render(parts[e..n]) + parts[n]) == s + parts[n];
      NewlineAtEnd(s, parts[n]);
    }
  }

  lemma DoubleNewline(lines: seq<string>)
    requires NoNewlines(lines) && lines != []
    ensures EndsWith(Render(lines), "\n\n") <==> Separator(lines) == []
  {
    var n := |lines| - 1;
    var head, last := Render(lines[..n]), lines[n];
    var r := Render(lines);
    assert r == head + last + "\n";
    if last != "" {
      assert r[|r| - 2] == last[|last| - 1];
    } else if n > 0 {
      RenderEnds(lines[..n]);
      assert r == head + "\n";
      assert r[|r| - 2..] == [head[|head| - 1]] + "\n";
    }
  }

  lemma RenderSeparated(lines: seq<string>)
    ensures Render(lines + Separator(lines)) == Render(lines) + if Separator(lines) == [] then "" else "\n"
  {
    RenderConcat(lines, Separator(lines));
    RenderOne("");
  }

  lemma AppendTerminated(text: string, lines: seq<string>, b: string)
    requires NoNewlines(lines) && lines != [] && text == Render(lines) && text != ""
    ensures Appended(text, b) == Render(lines + Separator(lines)) + b
  {
    hide Render, Separator;
    RenderEnds(lines);
    DoubleNewline(lines);
    RenderSeparated(lines);
  }

  lemma AppendUnterminated(text: string, lines: seq<string>, b: string)
    requires lines != [] && lines[|lines| - 1] != "" && text != ""
    requires text + "\n" == Render(lines) && !EndsWith(text, "\n")
    ensures Appended(text, b) == Render(lines + Separator(lines)) + b
  {
    hide Render;
    ShortSuffix(text);
    RenderSeparated(lines);
  }

  lemma AppendedText(text: string, name: string, block: seq<string>)
    requires Block(block, name) && text != ""
    requires Opening(LinesOf(text), name, 0) == |LinesOf(text)|
    ensures Replaced(text, name, Render(block)) == Render(ReplacedLines(LinesOf(text), name, block))
  {
    hide IsHostLine, HostLineName, Split, Render, LinesOf, Separator, Appended, EndsWith;
    var parts, lines := Split(text, '\n'), LinesOf(text);
    PiecesAndLines(text);
    SearchIgnoresLastEmpty(lines, name);
    RenderConcat(lines + Separator(lines), block);
    RenderNothing();
    if parts == lines {
      AppendUnterminated(text, lines, Render(block));
    } else {
      AppendTerminated(text, lines, Render(block));
    }
  }

  lemma ShortSuffix(text: string)
    requires !EndsWith(text, "\n")
    ensures !EndsWith(text, "\n\n")
  {
    if |text| >= 2 {
      assert text[|text| - 1..] == text[|text| - 2..][1..];
      assert "\n\n"[1..] == "\n";
    }
  }

  /** On every text, replacing a well-formed block is the line-by-line replacement, with every line
      of the result terminated. */
  lemma ReplacedText(text: string, name: string, block: seq<string>)
    requires Block(block, name)
    ensures Replaced(text, name, Render(block)) == Render(ReplacedLines(LinesOf(text), name, block))
  {
    hide IsHostLine, HostLineName, Render;
    if text == "" {
      SplitCons("", "", '\n');
      assert LinesOf(text) == [];
      assert [] + Separator([]) + block == block;
    } else if Opening(LinesOf(text), name, 0) == |LinesOf(text)| {
      AppendedText(text, name, block);
    } else {
      SplicedText(text, name, block);
    }
  }

  lemma ReplacedLinesClean(lines: seq<string>, name: string, block: seq<string>)
    requires Block(block, name) && NoNewlines(lines)
    ensures NoNewlines(ReplacedLines(lines, name, block))
  {
    hide IsHostLine, HostLineName;
  }

  /** Running the setup again changes nothing: replaceHostBlock is idempotent on every file. */
  lemma ReplaceIdempotent(text: string, name: string, block: seq<string>)
    requires Block(block, name)
    ensures var once := Replaced(text, name, Render(block));
      Replaced(once, name, Render(block)) == once
  {
    hide IsHostLine, HostLineName, Replaced, Render, ReplacedLines, LinesOf;
    PiecesAndLines(text);
    var lines := LinesOf(text);
    ReplacedText(text, name, block);
    ReplacedLinesClean(lines, name, block);
    LinesOfRender(ReplacedLines(lines, name, block));
    ReplacedText(Replaced(text, name, Render(block)), name, block);
    ReplaceTwice(lines, name, block);
  }

  /** Lines outside the replaced block are kept, in order; the new block stands where the old one
      stood or at the end after at most one blank line; and the number of blocks of that host stays
      what it was, except that none becomes one. */
  lemma ReplaceIsLocal(text: string, name: string, block: seq<string>)
    requires Block(block, name)
    ensures var before, after := LinesOf(text), LinesOf(Replaced(text, name, Render(block)));
      var s := Opening(before, name, 0);
      && (s == |before| ==> after == before + Separator(before) + block)
      && (s < |before| ==> after == before[..s] + block + before[NextHost(before, s + 1)..])
      && Count(after, name) == if Count(before, name) == 0 then 1 else Count(before, name)
  {
    hide IsHostLine, HostLineName, Replaced, Render, LinesOf;
    PiecesAndLines(text);
    var lines := LinesOf(text);
    ReplacedText(text, name, block);
    ReplacedLinesClean(lines, name, block);
    LinesOfRender(ReplacedLines(lines, name, block));
    ReplaceCounts(lines, name, block);
  }

  // ---- the block ssh-setup writes -----------------------------------------

  predicate SafeHostName(s: string) {
    s != "" && forall i :: 0 <= i < |s| ==>
      'a' <= s[i] <= 'z' || 'A' <= s[i] <= 'Z' || '0' <= s[i] <= '9' || s[i] == '-' || s[i] == '_'
  }

  /** The lines of buildSSHConfigBlock. */
  function BuiltBlock(name: string, server: string, keyPath: string, args: seq<string>): seq<string> {
    ["Host " + name,
     "  ProxyCommand " + ShellQuote.ProxyCommand(server, args),
     "  User sandbox",
     "  IdentityFile " + ShellQuote.Quoted(keyPath),
     "  StrictHostKeyChecking no",
     "  UserKnownHostsFile /dev/null"]
  }

  lemma {:induction false} NameEnds(name: string)
    requires forall i :: 0 <= i < |name| ==> !Blank(name[i])
    ensures UntilBlank(name) == name
  {
    if name != "" {
      NameEnds(name[1..]);
    }
  }

  lemma HostLineOf(name: string)
    requires SafeHostName(name)
    ensures Names("Host " + name, name)
  {
    var ln := "Host " + name;
    assert ln[0] == 'H' && TrimLeft(Blank, ln) == ln;
    assert ln[1] == 'o' && ln[2] == 's' && ln[3] == 't' && ln[4] == ' ';
    assert ln[5..] == name && TrimLeft(Blank, name) == name;
    NameEnds(name);
  }

  lemma IndentedLine(ln: string)
    requires ln != "" && !Blank(ln[0]) && Fold(ln[0]) != 'h'
    ensures !IsHostLine("  " + ln)
  {
    assert ("  " + ln)[1..] == " " + ln && (" " + ln)[1..] == ln;
    assert TrimLeft(Blank, ln) == ln;
    assert TrimLeft(Blank, " " + ln) == ln && TrimLeft(Blank, "  " + ln) == ln;
  }

  lemma {:induction false} EscapedKeepsLines(s: string)
    requires '\n' !in s
    ensures '\n' !in ShellQuote.Escaped(s)
  {
    if s != "" {
      EscapedKeepsLines(s[1..]);
    }
  }

  lemma QuotedKeepsLines(s: string)
    requires '\n' !in s
    ensures '\n' !in ShellQuote.Quoted(s)
  {
    EscapedKeepsLines(s);
  }

  lemma {:induction false} JoinedKeepsLines(xs: seq<string>)
    requires forall i :: 0 <= i < |xs| ==> '\n' !in xs[i]
    ensures '\n' !in Join(ShellQuote.QuotedAll(xs), ' ')
  {
    hide ShellQuote.Quoted;
    if xs != [] {
      QuotedKeepsLines(xs[0]);
      JoinedKeepsLines(xs[1..]);
      assert ShellQuote.QuotedAll(xs)[1..] == ShellQuote.QuotedAll(xs[1..]);
    }
  }

  predicate PlainLine(ln: string) {
    '\n' !in ln && !IsHostLine(ln)
  }

  lemma ProxyCommandKeepsLines(server: string, args: seq<string>)
    requires '\n' !in server && forall i :: 0 <= i < |args| ==> '\n' !in args[i]
    ensures '\n' !in ShellQuote.ProxyCommand(server, args)
  {
    hide ShellQuote.QuotedAll, Join;
    JoinedKeepsLines([server] + args);
  }

  lemma ProxyLine(server: string, args: seq<string>)
    requires '\n' !in server && forall i :: 0 <= i < |args| ==> '\n' !in args[i]
    ensures PlainLine("  ProxyCommand " + ShellQuote.ProxyCommand(server, args))
  {
    hide IsHostLine, ShellQuote.ProxyCommand;
    ProxyCommandKeepsLines(server, args);
    var rest := ShellQuote.ProxyCommand(server, args);
    assert "  ProxyCommand " + rest == "  " + ("ProxyCommand " + rest);
    assert ("ProxyCommand " + rest)[0] == 'P';
    IndentedLine("ProxyCommand " + rest);
  }

  lemma IdentityLine(keyPath: string)
    requires '\n' !in keyPath
    ensures PlainLine("  IdentityFile " + ShellQuote.Quoted(keyPath))
  {
    hide IsHostLine, ShellQuote.Quoted;
    QuotedKeepsLines(keyPath);
    var rest := ShellQuote.Quoted(keyPath);
    assert "  IdentityFile " + rest == "  " + ("IdentityFile " + rest);
    IndentedLine("IdentityFile " + rest);
  }

  lemma FixedLine(ln: string, first: char)
    requires |ln| > 2 && ln[..2] == "  " && ln[2] == first && !Blank(first) && Fold(first) != 'h' && '\n' !in ln
    ensures PlainLine(ln)
  {
    assert ln == "  " + ln[2..];
    IndentedLine(ln[2..]);
  }

  /** The block ssh-setup writes is a well-formed block of its host, when the host name is safe and no
      value holds a line break; so setting up the same host twice is setting it up once. */
  lemma BuiltBlockIsBlock(name: string, server: string, keyPath: string, args: seq<string>)
    requires SafeHostName(name)
    requires '\n' !in server && '\n' !in keyPath && forall i :: 0 <= i < |args| ==> '\n' !in args[i]
    ensures Block(BuiltBlock(name, server, keyPath, args), name)
  {
    hide IsHostLine, HostLineName, ShellQuote.Quoted, ShellQuote.ProxyCommand, PlainLine;
    HostLineOf(name);
    ProxyLine(server, args);
    IdentityLine(keyPath);
    FixedLine("  User sandbox", 'U');
    FixedLine("  StrictHostKeyChecking no", 'S');
    FixedLine("  UserKnownHostsFile /dev/null", 'U');
    var b := BuiltBlock(name, server, keyPath, args);
    assert '\n' !in b[0];
    BlockOfPlainLines(b, name);
  }

  lemma BlockOfPlainLines(b: seq<string>, name: string)
    requires |b| >= 1 && Names(b[0], name) && '\n' !in b[0]
    requires forall i :: 1 <= i < |b| ==> PlainLine(b[i])
    ensures Block(b, name)
  {
    hide IsHostLine, HostLineName;
  }

  // ---- the lines that open a block ----------------------------------------

  ghost predicate Blanks(s: string) {
    forall k :: 0 <= k < |s| ==> s[k] in " \t"
  }

  /** The keyword in any mixture of cases. */
  predicate HostWord(w: string) {
    |w| == 4 && w[0] in {'H', 'h'} && w[1] in {'O', 'o'} && w[2] in {'S', 's'} && w[3] in {'T', 't'}
  }

  lemma FoldIs(c: char)
    ensures Fold(c) == 'h' <==> c in {'H', 'h'}
    ensures Fold(c) == 'o' <==> c in {'O', 'o'}
    ensures Fold(c) == 's' <==> c in {'S', 's'}
    ensures Fold(c) == 't' <==> c in {'T', 't'}
  {}

  lemma {:induction false} TrimBlanks(indent: string, rest: string)
    requires Blanks(indent) && (rest == "" || !Blank(rest[0]))
    ensures TrimLeft(Blank, indent + rest) == rest
  {
    if indent == "" {
      assert indent + rest == rest;
    } else {
      FirstOfConcat(indent, rest);
      TrimBlanks(indent[1..], rest);
    }
  }

  lemma {:induction false} TrimmedIndent(s: string) returns (indent: string)
    ensures Blanks(indent) && s == indent + TrimLeft(Blank, s)
    ensures TrimLeft(Blank, s) == "" || !Blank(TrimLeft(Blank, s)[0])
  {
    if s != "" && Blank(s[0]) {
      var more := TrimmedIndent(s[1..]);
      indent := [s[0]] + more;
      Assoc([s[0]], more, TrimLeft(Blank, s[1..]));
      FirstOfConcat(s, "");
    } else {
      indent := "";
      assert "" + s == s;
    }
  }

  /** ln is a Host line read as: indentation, keyword, a blank, the rest. */
  ghost predicate HostForm(ln: string, indent: string, word: string, blank: char, rest: string) {
    Blanks(indent) && HostWord(word) && blank in " \t" && ln == indent + (word + [blank] + rest)
  }

  /** Host lines are exactly the lines that, after spaces and tabs, begin with the keyword in any case and a
      space or tab. */
  lemma HostLineExactly(ln: string)
    ensures IsHostLine(ln) <==> exists indent, word, blank, rest :: HostForm(ln, indent, word, blank, rest)
  {
    if IsHostLine(ln) {
      var indent := TrimmedIndent(ln);
      var t := TrimLeft(Blank, ln);
      SplitHost(t);
      assert HostForm(ln, indent, t[..4], t[4], t[5..]);
    }
    if indent, word, blank, rest :| HostForm(ln, indent, word, blank, rest) {
      HostFormIsHost(ln, indent, word, blank, rest);
    }
  }

  lemma SplitHost(t: string)
    requires |t| >= 5 && Fold(t[0]) == 'h' && Fold(t[1]) == 'o' && Fold(t[2]) == 's' && Fold(t[3]) == 't'
    ensures HostWord(t[..4]) && t == t[..4] + [t[4]] + t[5..]
  {
    FoldIs(t[0]);
    FoldIs(t[1]);
    FoldIs(t[2]);
    FoldIs(t[3]);
  }

  lemma HostFormIsHost(ln: string, indent: string, word: string, blank: char, rest: string)
    requires HostForm(ln, indent, word, blank, rest)
    ensures IsHostLine(ln) && TrimLeft(Blank, ln)[5..] == rest
  {
    var t := word + [blank] + rest;
    assert t[0] == word[0] && t[1] == word[1] && t[2] == word[2] && t[3] == word[3] && t[4] == blank;
    TrimBlanks(indent, t);
    FoldIs(t[0]);
    FoldIs(t[1]);
    FoldIs(t[2]);
    FoldIs(t[3]);
    assert t[5..] == rest;
  }

  lemma {:induction false} UntilBlankIs(name: string, rest: string)
    requires (forall k :: 0 <= k < |name| ==> !Blank(name[k])) && (rest == "" || Blank(rest[0]))
    ensures UntilBlank(name + rest) == name
  {
    if name == "" {
      assert name + rest == rest;
    } else {
      FirstOfConcat(name, rest);
      UntilBlankIs(name[1..], rest);
    }
  }

  /** The name of a Host line is its first pattern: what stands, after more blanks, before the next blank or
      the end of the line. */
  lemma HostNameIs(indent: string, word: string, blank: char, gap: string, name: string, rest: string)
    requires Blanks(indent) && HostWord(word) && blank in " \t" && Blanks(gap)
    requires name != "" && (forall k :: 0 <= k < |name| ==> name[k] !in " \t") && (rest == "" || rest[0] in " \t")
    ensures Names(indent + (word + [blank] + (gap + (name + rest))), name)
  {
    var ln := indent + (word + [blank] + (gap + (name + rest)));
    HostFormIsHost(ln, indent, word, blank, gap + (name + rest));
    hide IsHostLine;
    assert (name + rest)[0] == name[0];
    TrimBlanks(gap, name + rest);
    UntilBlankIs(name, rest);
  }
}
