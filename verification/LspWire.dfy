/** internal/lsp/wire.go: the header and content framing of the LSP base protocol.
    A string here is a Go byte string: each char stands for one byte. */
module LspWire {
  import opened Text

  datatype ReadError = HeaderEOF | MissingLength | ShortBody

  /** A read either yields a value or fails; either way it leaves the unread rest of the stream. */
  datatype Read<T> = Ok(value: T, rest: string) | Err(error: ReadError, rest: string)

  const PREFIX := "Content-Length:"
  const MAX_INT: int := 0x7FFF_FFFF_FFFF_FFFF

  // ---- numbers ------------------------------------------------------------

  predicate Digit(c: char) {
    '0' <= c <= '9'
  }

  predicate Digits(s: string) {
    forall i :: 0 <= i < |s| ==> Digit(s[i])
  }

  function Value(s: string): nat
    requires Digits(s)
  {
    if s == "" then 0 else 10 * Value(s[..|s| - 1]) + (s[|s| - 1] as int - '0' as int)
  }

  /** fmt's %d. */
  function Decimal(n: nat): string {
    if n < 10 then [('0' as int + n) as char] else Decimal(n / 10) + [('0' as int + n % 10) as char]
  }

  /** strconv.Atoi on a 64-bit platform: an optional sign, at least one digit, no overflow. */
  function Atoi(s: string): Option<int> {
    var unsigned := if s != "" && (s[0] == '-' || s[0] == '+') then s[1..] else s;
    if unsigned == "" || !Digits(unsigned) then None
    else
      var v: int := if s[0] == '-' then -(Value(unsigned) as int) else Value(unsigned);
      if -MAX_INT - 1 <= v <= MAX_INT then Some(v) else None
  }

  // ---- header lines -------------------------------------------------------

  predicate Space(c: char) {
    c == ' ' || c == '\t' || c == '\n' || c == '\r' || c == 11 as char || c == 12 as char
  }

  predicate LineEnd(c: char) {
    c == '\r' || c == '\n'
  }

  /** strings.TrimRight(line, "\r\n"). */
  function TrimEOL(s: string): string {
    TrimRight(LineEnd, s)
  }

  function ParseContentLength(line: string): Option<nat> {
    if !(PREFIX <= line) then None
    else match Atoi(TrimRight(Space, TrimLeft(Space, line[|PREFIX|..])))
      case None => None
      case Some(v) => if v < 0 then None else Some(v)
  }

  // ---- the reader ---------------------------------------------------------

  /** readContentLength from stream s, with the length seen so far. */
  function HeaderLength(s: string, length: int): Read<int> {
    var i := Index(s, '\n');
    if i == |s| then Err(HeaderEOF, "")
    else
      var line := TrimEOL(s[..i + 1]);
      if line == "" then if length < 0 then Err(MissingLength, s[i + 1..]) else Ok(length, s[i + 1..])
      else
        var v := ParseContentLength(line);
        HeaderLength(s[i + 1..], if v.Some? then v.value else length)
  }

  function ReadFrame(s: string): Read<string> {
    match HeaderLength(s, -1)
    case Err(e, rest) => Err(e, rest)
    case Ok(n, rest) =>
      if 0 <= n <= |rest| then Ok(rest[..n], rest[n..]) else Err(ShortBody, "")
  }

  class Reader {
    var rest: string

    constructor (stream: string)
      ensures rest == stream
    {
      rest := stream;
    }

    /** bufio.Reader.ReadString('\n'). */
    method ReadLine() returns (line: Option<string>)
      modifies this
      ensures var i := Index(old(rest), '\n');
        if i == |old(rest)| then line == None && rest == ""
        else line == Some(old(rest)[..i + 1]) && rest == old(rest)[i + 1..]
    {
      var i := Index(rest, '\n');
      if i == |rest| {
        line, rest := None, "";
      } else {
        line, rest := Some(rest[..i + 1]), rest[i + 1..];
      }
    }

    method ReadContentLength() returns (r: Read<int>)
      modifies this
      ensures r == HeaderLength(old(rest), -1) && rest == r.rest
    {
      var length: int := -1;
      while true
        invariant HeaderLength(rest, length) == HeaderLength(old(rest), -1)
        decreases |rest|
      {
        var line := ReadLine();
        if line.None? {
          return Err(HeaderEOF, rest);
        }
        var trimmed := TrimEOL(line.value);
        if trimmed == "" {
          if length < 0 {
            return Err(MissingLength, rest);
          }
          return Ok(length, rest);
        }
        var v := ParseContentLength(trimmed);
        if v.Some? {
          length := v.value;
        }
      }
    }

    method ReadMessage() returns (r: Read<string>)
      modifies this
      ensures r == ReadFrame(old(rest)) && rest == r.rest
    {
      var n := ReadContentLength();
      if n.Err? {
        return Err(n.error, n.rest);
      }
      HeaderLengthNonNegative(old(rest), -1);
      if n.value <= |rest| {
        r := Ok(rest[..n.value], rest[n.value..]);
        rest := rest[n.value..];
      } else {
        rest := "";
        r := Err(ShortBody, "");
      }
    }
  }

  lemma {:induction false} HeaderLengthNonNegative(s: string, length: int)
    ensures HeaderLength(s, length).Ok? ==> HeaderLength(s, length).value >= 0
    decreases |s|
  {
    var i := Index(s, '\n');
    if i < |s| {
      var v := ParseContentLength(TrimEOL(s[..i + 1]));
      HeaderLengthNonNegative(s[i + 1..], if v.Some? then v.value else length);
    }
  }

  // ---- the writer ---------------------------------------------------------

  function Frame(body: string): string {
    PREFIX + " " + Decimal(|body|) + "\r\n\r\n" + body
  }

  class Writer {
    var out: string

    constructor ()
      ensures out == ""
    {
      out := "";
    }

    method WriteMessage(body: string)
      modifies this
      ensures out == old(out) + Frame(body)
    {
      out := out + (PREFIX + " " + Decimal(|body|) + "\r\n\r\n");
      out := out + body;
    }
  }

  // ---- decimal printing and parsing are inverse ---------------------------

  lemma {:induction false} DecimalValue(n: nat)
    ensures Decimal(n) != "" && Digits(Decimal(n)) && Value(Decimal(n)) == n
  {
    if n >= 10 {
      DecimalValue(n / 10);
      var d := Decimal(n);
      assert d[..|d| - 1] == Decimal(n / 10);
    } else {
      assert Decimal(n)[..0] == "";
    }
  }

  /** Printing is the canonical numeral: any digit string without a leading zero is the print of its value. */
  lemma {:induction false} ValueDecimal(s: string)
    requires s != "" && Digits(s) && (s[0] != '0' || |s| == 1)
    ensures Decimal(Value(s)) == s
    ensures |s| > 1 ==> Value(s) >= 10
    ensures s[0] != '0' ==> Value(s) > 0
  {
    var n := |s| - 1;
    assert s == s[..n] + [s[n]];
    if n == 0 {
      assert s[..0] == "";
    } else {
      ValueDecimal(s[..n]);
      var d := s[n] as int - '0' as int;
      assert Value(s) == 10 * Value(s[..n]) + d;
      assert Value(s) / 10 == Value(s[..n]) && Value(s) % 10 == d;
    }
  }

  lemma AtoiDecimal(n: nat)
    requires n <= MAX_INT
    ensures Atoi(Decimal(n)) == Some(n)
  {
    DecimalValue(n);
    assert Digit(Decimal(n)[0]);
  }

  lemma TrimmedNumber(d: string)
    requires d != "" && Digits(d)
    ensures TrimRight(Space, TrimLeft(Space, " " + d)) == d
  {
    assert (" " + d)[1..] == d;
    assert Digit(d[0]) && Digit(d[|d| - 1]);
  }

  lemma ParseAfterPrefix(t: string)
    requires Atoi(TrimRight(Space, TrimLeft(Space, t))).Some? && Atoi(TrimRight(Space, TrimLeft(Space, t))).value >= 0
    ensures ParseContentLength(PREFIX + t) == Some(Atoi(TrimRight(Space, TrimLeft(Space, t))).value)
  {
    hide Atoi, TrimRight, TrimLeft;
    assert (PREFIX + t)[|PREFIX|..] == t;
  }

  lemma ParseWrittenLength(n: nat)
    requires n <= MAX_INT
    ensures ParseContentLength(PREFIX + " " + Decimal(n)) == Some(n)
  {
    hide ParseContentLength, Atoi, Decimal;
    DecimalValue(n);
    AtoiDecimal(n);
    TrimmedNumber(Decimal(n));
    ParseAfterPrefix(" " + Decimal(n));
    assert PREFIX + " " + Decimal(n) == PREFIX + (" " + Decimal(n));
  }

  // ---- reading a header block ---------------------------------------------

  /** A header line: no newline inside, something left after trimming the line end. */
  predicate HeaderLine(line: string) {
    '\n' !in line && TrimEOL(line) != ""
  }

  function Lines(lines: seq<string>): string {
    if lines == [] then "" else lines[0] + "\n" + Lines(lines[1..])
  }

  /** The last well-formed Content-Length among the lines, or the given default. */
  function LastLength(lines: seq<string>, length: int): int {
    if lines == [] then length
    else
      var v := ParseContentLength(TrimEOL(lines[0]));
      LastLength(lines[1..], if v.Some? then v.value else length)
  }

  lemma OneLine(line: string, rest: string)
    requires '\n' !in line
    ensures Index(line + "\n" + rest, '\n') == |line|
    ensures (line + "\n" + rest)[..|line| + 1] == line + "\n"
    ensures (line + "\n" + rest)[|line| + 1..] == rest
    ensures TrimEOL(line + "\n") == TrimEOL(line)
  {
    IndexAt(line + "\n" + rest, '\n', |line|);
    assert (line + "\n")[..|line|] == line;
  }

  /** A header block, however its lines are ordered and whatever else they say, is read as its last
      well-formed Content-Length; without one it is an error. The body is left untouched. */
  lemma {:induction false} HeaderBlock(lines: seq<string>, rest: string, length: int)
    requires forall i :: 0 <= i < |lines| ==> HeaderLine(lines[i])
    ensures HeaderLength(Lines(lines) + "\r\n" + rest, length)
         == if LastLength(lines, length) < 0 then Err(MissingLength, rest) else Ok(LastLength(lines, length), rest)
  {
    hide ParseContentLength, Index;
    if lines == [] {
      assert Lines(lines) + "\r\n" + rest == "\r" + "\n" + rest;
      OneLine("\r", rest);
      assert "\r"[..0] == "";
      assert TrimEOL("\r") == "";
    } else {
      var tail := Lines(lines[1..]) + "\r\n" + rest;
      assert Lines(lines) + "\r\n" + rest == lines[0] + "\n" + tail;
      OneLine(lines[0], tail);
      var v := ParseContentLength(TrimEOL(lines[0]));
      HeaderBlock(lines[1..], rest, if v.Some? then v.value else length);
    }
  }

  /** Lines that are not well-formed lengths can be inserted anywhere. */
  lemma {:induction false} ExtraHeaderIgnored(before: seq<string>, extra: string, after: seq<string>, length: int)
    requires ParseContentLength(TrimEOL(extra)).None?
    ensures LastLength(before + [extra] + after, length) == LastLength(before + after, length)
  {
    hide ParseContentLength, TrimEOL;
    if before == [] {
      assert before + [extra] + after == [extra] + after && before + after == after;
      assert ([extra] + after)[1..] == after;
    } else {
      assert (before + [extra] + after)[1..] == before[1..] + [extra] + after;
      assert (before + after)[1..] == before[1..] + after;
      var v := ParseContentLength(TrimEOL(before[0]));
      ExtraHeaderIgnored(before[1..], extra, after, if v.Some? then v.value else length);
    }
  }

  lemma OtherHeadersIgnored(line: string)
    requires !(PREFIX <= TrimEOL(line))
    ensures ParseContentLength(TrimEOL(line)).None?
  {}

  // ---- round trips --------------------------------------------------------

  /** One frame, with any other headers around its length, is read back exactly. */
  lemma FrameRoundTrip(before: seq<string>, after: seq<string>, body: string, rest: string)
    requires |body| <= MAX_INT
    requires forall h :: h in before + after ==> HeaderLine(h) && !(PREFIX <= TrimEOL(h))
    ensures var length := PREFIX + " " + Decimal(|body|) + "\r";
      ReadFrame(Lines(before + [length] + after) + "\r\n" + (body + rest)) == Ok(body, rest)
  {
    var length := PREFIX + " " + Decimal(|body|) + "\r";
    var lines := before + [length] + after;
    LengthLine(|body|);
    forall i | 0 <= i < |lines| ensures HeaderLine(lines[i]) {
      if i != |before| {
        assert lines[i] in before + after;
      }
    }
    HeaderBlock(lines, body + rest, -1);
    LengthAmongOthers(before, length, after, |body|);
    assert (body + rest)[..|body|] == body && (body + rest)[|body|..] == rest;
  }

  lemma LengthLine(n: nat)
    requires n <= MAX_INT
    ensures var length := PREFIX + " " + Decimal(n) + "\r";
      HeaderLine(length) && ParseContentLength(TrimEOL(length)) == Some(n)
  {
    var d := Decimal(n);
    DecimalValue(n);
    var line := PREFIX + " " + d;
    assert line[|line| - 1] == d[|d| - 1] && Digit(d[|d| - 1]);
    assert TrimRight(LineEnd, line) == line;
    assert (line + "\r")[..|line|] == line;
    assert TrimEOL(line + "\r") == line;
    ParseWrittenLength(n);
    forall i | 0 <= i < |d| ensures d[i] != '\n' {
      assert Digit(d[i]);
    }
    assert '\n' !in d;
  }

  lemma {:induction false} LengthAmongOthers(before: seq<string>, length: string, after: seq<string>, n: nat)
    requires ParseContentLength(TrimEOL(length)) == Some(n)
    requires forall h :: h in before + after ==> !(PREFIX <= TrimEOL(h))
    ensures LastLength(before + [length] + after, -1) == n
  {
    hide ParseContentLength, TrimEOL;
    if before != [] {
      assert before[0] in before + after;
      OtherHeadersIgnored(before[0]);
      assert before == [] + [before[0]] + before[1..];
      assert before + [length] + after == [] + [before[0]] + (before[1..] + [length] + after);
      ExtraHeaderIgnored([], before[0], before[1..] + [length] + after, -1);
      assert [] + (before[1..] + [length] + after) == before[1..] + [length] + after;
      forall h | h in before[1..] + after ensures !(PREFIX <= TrimEOL(h)) {
        assert h in before + after;
      }
      LengthAmongOthers(before[1..], length, after, n);
    } else {
      assert before + [length] + after == [length] + after;
      assert ([length] + after)[1..] == after;
      forall h | h in after ensures !(PREFIX <= TrimEOL(h)) {
        assert h in before + after;
      }
      NoLength(after, n);
    }
  }

  lemma {:induction false} NoLength(lines: seq<string>, n: int)
    requires forall h :: h in lines ==> !(PREFIX <= TrimEOL(h))
    ensures LastLength(lines, n) == n
  {
    hide ParseContentLength, TrimEOL;
    if lines != [] {
      assert lines[0] in lines;
      OtherHeadersIgnored(lines[0]);
      NoLength(lines[1..], n);
    }
  }

  function Frames(bodies: seq<string>): string {
    if bodies == [] then "" else Frame(bodies[0]) + Frames(bodies[1..])
  }

  /** Reading k messages in a row; None at the first failure. */
  function ReadFrames(k: nat, s: string): Option<(seq<string>, string)> {
    if k == 0 then Some(([], s))
    else match ReadFrame(s)
      case Err(_, _) => None
      case Ok(body, rest) =>
        match ReadFrames(k - 1, rest)
        case None => None
        case Some((bodies, end)) => Some(([body] + bodies, end))
  }

  lemma WrittenFrameReadsBack(body: string, rest: string)
    requires |body| <= MAX_INT
    ensures ReadFrame(Frame(body) + rest) == Ok(body, rest)
  {
    hide ReadFrame, Decimal, HeaderLine, TrimEOL;
    var length := PREFIX + " " + Decimal(|body|) + "\r";
    FrameRoundTrip([], [], body, rest);
    assert [] + [length] + [] == [length];
    OneHeader(length, body + rest);
    assert length + "\n" + "\r\n" + (body + rest) == Frame(body) + rest;
  }

  lemma OneHeader(line: string, rest: string)
    ensures Lines([line]) + "\r\n" + rest == line + "\n" + "\r\n" + rest
  {
    assert [line][1..] == [];
    assert Lines([line]) == line + "\n" + "";
  }

  /** Whatever was written, in any number of frames, is read back in order; trailing bytes stay. */
  lemma {:induction false} FramesRoundTrip(bodies: seq<string>, rest: string)
    requires forall b :: b in bodies ==> |b| <= MAX_INT
    ensures ReadFrames(|bodies|, Frames(bodies) + rest) == Some((bodies, rest))
  {
    hide ReadFrame, Frame;
    if bodies == [] {
      assert Frames(bodies) + rest == rest;
    } else {
      assert bodies[0] in bodies;
      FramesRoundTrip(bodies[1..], rest);
      ReadOneMore(bodies[0], bodies[1..], rest);
      FirstOfConcat(bodies, []);
    }
  }

  /** One frame in front of a stream that reads back. */
  lemma ReadOneMore(body: string, more: seq<string>, rest: string)
    requires |body| <= MAX_INT
    requires ReadFrames(|more|, Frames(more) + rest) == Some((more, rest))
    ensures ReadFrames(|more| + 1, Frames([body] + more) + rest) == Some(([body] + more, rest))
  {
    hide ReadFrame, Frame, Frames;
    FramesCons(body, more);
    Assoc(Frame(body), Frames(more), rest);
    WrittenFrameReadsBack(body, Frames(more) + rest);
  }

  lemma FramesCons(body: string, more: seq<string>)
    ensures Frames([body] + more) == Frame(body) + Frames(more)
  {
    hide Frame;
    assert ([body] + more)[1..] == more;
  }

  // ---- length lines -------------------------------------------------------

  /** Space, tab, line feed, carriage return, vertical tab and form feed. */
  const WHITESPACE := " \t\n\r" + [11 as char, 12 as char]

  ghost predicate Spaces(s: string) {
    forall k :: 0 <= k < |s| ==> s[k] in WHITESPACE
  }

  lemma {:induction false} TrimLeftSpaces(ws: string, rest: string)
    requires Spaces(ws) && (rest == "" || !Space(rest[0]))
    ensures TrimLeft(Space, ws + rest) == rest
  {
    if ws == "" {
      assert ws + rest == rest;
    } else {
      FirstOfConcat(ws, rest);
      TrimLeftSpaces(ws[1..], rest);
    }
  }

  lemma {:induction false} TrimRightSpaces(s: string, ws: string)
    requires Spaces(ws) && (s == "" || !Space(s[|s| - 1]))
    ensures TrimRight(Space, s + ws) == s
  {
    if ws == "" {
      assert s + ws == s;
    } else {
      LastOfConcat(s, ws);
      TrimRightSpaces(s, ws[..|ws| - 1]);
    }
  }

  /** The number after the header name may be padded with spaces and signed; it counts when it is not
      negative and fits in 64 bits. */
  lemma LengthLineExactly(before: string, sign: string, digits: string, after: string)
    requires Spaces(before) && Spaces(after) && sign in {"", "+", "-"} && digits != "" && Digits(digits)
    ensures ParseContentLength(PREFIX + (before + (sign + digits + after)))
         == var v := Value(digits);
            if (sign == "-" && v > 0) || (v > MAX_INT && !(sign == "-" && v == 0)) then None else Some(v)
  {
    var number := sign + digits;
    assert Digit(digits[0]) && Digit(digits[|digits| - 1]);
    assert number[|number| - 1] == digits[|digits| - 1];
    assert (number + after)[0] == number[0];
    TrimLeftSpaces(before, number + after);
    TrimRightSpaces(number, after);
    SignedAtoi(sign, digits);
    hide Atoi, TrimLeft, TrimRight, Value;
    assert (PREFIX + (before + (number + after)))[|PREFIX|..] == before + (number + after);
    assert PREFIX <= PREFIX + (before + (number + after));
  }

  lemma SignedAtoi(sign: string, digits: string)
    requires sign in {"", "+", "-"} && digits != "" && Digits(digits)
    ensures var v: int := if sign == "-" then -(Value(digits) as int) else Value(digits);
      Atoi(sign + digits) == if -MAX_INT - 1 <= v <= MAX_INT then Some(v) else None
  {
    hide Value;
    assert Digit(digits[0]);
    if sign == "" {
      assert sign + digits == digits;
    } else {
      assert (sign + digits)[1..] == digits && (sign + digits)[0] == sign[0];
    }
  }

  /** Nothing else is a number. */
  lemma NumbersOnly(s: string)
    requires Atoi(s).Some?
    ensures exists sign, digits :: sign in {"", "+", "-"} && digits != "" && Digits(digits) && s == sign + digits
  {
    hide Value;
    if s[0] == '-' || s[0] == '+' {
      var sign := if s[0] == '-' then "-" else "+";
      assert s == sign + s[1..];
    } else {
      assert s == "" + s;
    }
  }

  // ---- streams that end early ---------------------------------------------

  lemma NoNewlineFails(s: string, length: int)
    requires '\n' !in s
    ensures HeaderLength(s, length) == Err(HeaderEOF, "")
  {}

  lemma HeaderStep(line: string, rest: string, length: int)
    requires HeaderLine(line)
    ensures var v := ParseContentLength(TrimEOL(line));
      HeaderLength(line + "\n" + rest, length) == HeaderLength(rest, if v.Some? then v.value else length)
  {
    hide ParseContentLength, Index, TrimEOL;
    OneLine(line, rest);
  }

  /** A stream that ends before the blank line is a header error. */
  lemma {:induction false} CutInHeader(lines: seq<string>, partial: string, length: int)
    requires (forall i :: 0 <= i < |lines| ==> HeaderLine(lines[i])) && '\n' !in partial
    ensures HeaderLength(Lines(lines) + partial, length) == Err(HeaderEOF, "")
  {
    hide ParseContentLength, Index, TrimEOL, HeaderLength;
    if lines == [] {
      assert Lines(lines) + partial == partial;
      NoNewlineFails(partial, length);
    } else {
      var rest := Lines(lines[1..]) + partial;
      assert Lines(lines) + partial == lines[0] + "\n" + rest;
      HeaderStep(lines[0], rest, length);
      var v := ParseContentLength(TrimEOL(lines[0]));
      CutInHeader(lines[1..], partial, if v.Some? then v.value else length);
    }
  }

  /** A stream that ends inside the body is a short body, whatever the headers are, and nothing is left. */
  lemma CutInBody(lines: seq<string>, partial: string)
    requires forall i :: 0 <= i < |lines| ==> HeaderLine(lines[i])
    requires |partial| < LastLength(lines, -1)
    ensures ReadFrame(Lines(lines) + "\r\n" + partial) == Err(ShortBody, "")
  {
    hide HeaderLength, LastLength, HeaderLine, Lines;
    HeaderBlock(lines, partial, -1);
  }

  function Header(n: nat): string {
    PREFIX + " " + Decimal(n) + "\r\n\r\n"
  }

  /** However early a written frame is cut off, reading it fails: in the header as a header error, in the body
      as a short body. */
  lemma CutFrameFails(body: string, k: nat)
    requires |body| <= MAX_INT && k < |Frame(body)|
    ensures ReadFrame(Frame(body)[..k])
         == if k < |Frame(body)| - |body| then Err(HeaderEOF, "") else Err(ShortBody, "")
  {
    var line := PREFIX + " " + Decimal(|body|) + "\r";
    LengthLine(|body|);
    hide Decimal, ReadFrame, HeaderLine, TrimEOL, ParseContentLength;
    assert Frame(body) == line + "\n" + "\r\n" + body;
    LineList(line);
    var n := |line|;
    if k <= n {
      CutAtLine(line, "\r\n" + body, k);
      CutInHeader([], line[..k], -1);
      assert Lines([]) + line[..k] == line[..k];
      HeaderErrorIsFrameError(line[..k]);
    } else if k <= n + 2 {
      var partial := "\r\n"[..k - n - 1];
      assert Frame(body)[..k] == Lines([line]) + partial;
      assert partial == "" || partial == "\r";
      CutInHeader([line], partial, -1);
      HeaderErrorIsFrameError(Lines([line]) + partial);
    } else {
      var partial := body[..k - n - 3];
      assert Frame(body)[..k] == Lines([line]) + "\r\n" + partial;
      assert LastLength([line], -1) == |body| by { OnlyLength(line, |body|); }
      CutInBody([line], partial);
    }
  }

  lemma LineList(line: string)
    ensures Lines([line]) == line + "\n"
  {
    assert [line][1..] == [];
    assert Lines([line]) == line + "\n" + "";
  }

  lemma CutAtLine(line: string, rest: string, k: nat)
    requires k <= |line| && '\n' !in line
    ensures (line + "\n" + rest)[..k] == line[..k] && '\n' !in line[..k]
  {}

  lemma OnlyLength(line: string, n: nat)
    requires ParseContentLength(TrimEOL(line)) == Some(n)
    ensures LastLength([line], -1) == n
  {
    assert [line][1..] == [];
  }

  lemma HeaderErrorIsFrameError(s: string)
    requires HeaderLength(s, -1) == Err(HeaderEOF, "")
    ensures ReadFrame(s) == Err(HeaderEOF, "")
  {}
}
