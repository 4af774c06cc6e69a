/** cmd/sandbox-forward/sshsetup.go: shellQuote, and the part of the POSIX shell that undoes it. */
module ShellQuote {
  import opened Text

  /** The characters shellQuote leaves bare. */
  predicate Safe(c: char) {
    || 'a' <= c <= 'z' || 'A' <= c <= 'Z' || '0' <= c <= '9'
    || c == '-' || c == '_' || c == '.' || c == '/' || c == ':' || c == '=' || c == '@'
  }

  /** strings.ReplaceAll(s, "'", `'\''`). */
  function Escaped(s: string): string {
    if s == "" then ""
    else (if s[0] == '\'' then "'\\''" else [s[0]]) + Escaped(s[1..])
  }

  function Quoted(s: string): string {
    if s == "" then "''"
    else if forall i :: 0 <= i < |s| ==> Safe(s[i]) then s
    else "'" + Escaped(s) + "'"
  }

  method ShellQuote(s: string) returns (r: string)
    ensures r == Quoted(s)
  {
    if s == "" {
      return "''";
    }
    var safe := true;
    for i := 0 to |s|
      invariant safe <==> forall j :: 0 <= j < i ==> Safe(s[j])
    {
      if !Safe(s[i]) {
        safe := false;
      }
    }
    if safe {
      return s;
    }
    return "'" + Escaped(s) + "'";
  }

  // ---- the shell ----------------------------------------------------------

  /** The characters that are ordinary outside quotes whatever surrounds them. */
  predicate Ordinary(c: char) {
    Safe(c) || c == '+' || c == ','
  }

  /** Between words, inside a word, or inside single quotes of a word. */
  datatype Mode = Gap | Word(w: string) | Single(w: string)

  function Cons(w: string, ws: Option<seq<string>>): Option<seq<string>> {
    if ws.None? then None else Some([w] + ws.value)
  }

  function Begun(mode: Mode): string {
    if mode.Gap? then "" else mode.w
  }

  /** Token recognition (Shell Command Language, section 2.3) with the escape character (2.2.1) and
      single quotes (2.2.2). None for anything whose reading those sections do not settle: an
      unquoted operator, expansion or comment character, a newline, an open quote. */
  function Lex(mode: Mode, s: string): Option<seq<string>>
    decreases |s|
  {
    if s == "" then
      match mode
      case Gap => Some([])
      case Word(w) => Some([w])
      case Single(_) => None
    else if mode.Single? then
      if s[0] == '\'' then Lex(Word(mode.w), s[1..]) else Lex(Single(mode.w + [s[0]]), s[1..])
    else if s[0] == ' ' || s[0] == '\t' then
      if mode.Gap? then Lex(Gap, s[1..]) else Cons(mode.w, Lex(Gap, s[1..]))
    else if s[0] == '\'' then Lex(Single(Begun(mode)), s[1..])
    else if s[0] == '\\' then
      if |s| == 1 then None
      else if s[1] == '\n' then Lex(mode, s[2..])
      else Lex(Word(Begun(mode) + [s[1]]), s[2..])
    else if Ordinary(s[0]) then Lex(Word(Begun(mode) + [s[0]]), s[1..])
    else None
  }

  lemma {:induction false} LexSafe(mode: Mode, s: string, rest: string)
    requires !mode.Single? && s != "" && forall i :: 0 <= i < |s| ==> Safe(s[i])
    ensures Lex(mode, s + rest) == Lex(Word(Begun(mode) + s), rest)
    decreases |s|
  {
    FirstOfConcat(s, rest);
    LexOne(mode, s[0], s[1..] + rest);
    hide Lex, Safe;
    var next := Word(Begun(mode) + [s[0]]);
    assert s + rest == [s[0]] + (s[1..] + rest);
    if |s| == 1 {
      assert s == [s[0]] && s[1..] + rest == rest;
    } else {
      LexSafe(next, s[1..], rest);
      Assoc(Begun(mode), [s[0]], s[1..]);
    }
  }

  lemma LexOne(mode: Mode, c: char, rest: string)
    requires !mode.Single? && Safe(c)
    ensures Lex(mode, [c] + rest) == Lex(Word(Begun(mode) + [c]), rest)
  {
    assert ([c] + rest)[1..] == rest;
  }

  lemma SingleStep(w: string, c: char, rest: string)
    ensures c != '\'' ==> Lex(Single(w), [c] + rest) == Lex(Single(w + [c]), rest)
    ensures Lex(Single(w), "'" + rest) == Lex(Word(w), rest)
    ensures Lex(Word(w), "'" + rest) == Lex(Single(w), rest)
    ensures Lex(Word(w), "\\'" + rest) == Lex(Word(w + "'"), rest)
  {
    assert ([c] + rest)[1..] == rest;
    assert ("'" + rest)[1..] == rest;
    assert ("\\'" + rest)[2..] == rest && ("\\'" + rest)[1] == '\'';
  }

  /** Four characters for an embedded quote: close, escaped quote, open. */
  lemma EmbeddedQuote(w: string, rest: string)
    ensures Lex(Single(w), "'\\''" + rest) == Lex(Single(w + "'"), rest)
  {
    hide Lex;
    assert "'\\''" + rest == "'" + ("\\'" + ("'" + rest));
    SingleStep(w, 'x', "\\'" + ("'" + rest));
    SingleStep(w, 'x', "'" + rest);
    SingleStep(w + "'", 'x', rest);
  }

  lemma {:induction false} LexEscaped(w: string, s: string, rest: string)
    ensures Lex(Single(w), Escaped(s) + ("'" + rest)) == Lex(Word(w + s), rest)
    decreases |s|
  {
    hide Lex;
    if s == "" {
      assert Escaped(s) + ("'" + rest) == "'" + rest && w + s == w;
      SingleStep(w, 'x', rest);
    } else {
      var tail := Escaped(s[1..]) + ("'" + rest);
      LexEscaped(w + [s[0]], s[1..], rest);
      FirstOfConcat(s, "");
      Assoc(w, [s[0]], s[1..]);
      if s[0] == '\'' {
        Assoc("'\\''", Escaped(s[1..]), "'" + rest);
        EmbeddedQuote(w, tail);
        assert w + "'" == w + [s[0]];
      } else {
        Assoc([s[0]], Escaped(s[1..]), "'" + rest);
        SingleStep(w, s[0], tail);
      }
    }
  }

  lemma OpenQuote(rest: string)
    ensures Lex(Gap, "'" + rest) == Lex(Single(""), rest)
  {
    assert ("'" + rest)[1..] == rest;
  }

  /** However a string is quoted, the shell reads it back as that one word. */
  lemma LexQuoted(s: string, rest: string)
    ensures Lex(Gap, Quoted(s) + rest) == Lex(Word(s), rest)
  {
    hide Lex, Escaped, Safe;
    assert "" + s == s;
    if s == "" {
      assert Quoted(s) + rest == "'" + ("'" + rest);
      OpenQuote("'" + rest);
      SingleStep("", 'x', rest);
    } else if forall i :: 0 <= i < |s| ==> Safe(s[i]) {
      LexSafe(Gap, s, rest);
    } else {
      assert Quoted(s) + rest == "'" + (Escaped(s) + ("'" + rest));
      OpenQuote(Escaped(s) + ("'" + rest));
      LexEscaped("", s, rest);
    }
  }

  function QuotedAll(xs: seq<string>): seq<string> {
    if xs == [] then [] else [Quoted(xs[0])] + QuotedAll(xs[1..])
  }

  /** The space-joined quotations of any list of strings are read by the shell as exactly that list. */
  lemma {:induction false} QuoteRoundTrip(xs: seq<string>)
    ensures Lex(Gap, Join(QuotedAll(xs), ' ')) == Some(xs)
  {
    hide Quoted;
    if xs != [] {
      var q := Quoted(xs[0]);
      QuoteRoundTrip(xs[1..]);
      if |xs| == 1 {
        LexQuoted(xs[0], "");
        assert QuotedAll(xs) == [q] && q + "" == q;
        assert xs == [xs[0]];
      } else {
        var more := Join(QuotedAll(xs[1..]), ' ');
        assert QuotedAll(xs)[1..] == QuotedAll(xs[1..]);
        assert Join(QuotedAll(xs), ' ') == q + ([' '] + more);
        LexQuoted(xs[0], [' '] + more);
        assert ([' '] + more)[1..] == more;
        assert [xs[0]] + xs[1..] == xs;
      }
    }
  }

  // ---- the ProxyCommand line ----------------------------------------------

  /** The value written after ProxyCommand by buildSSHConfigBlock. */
  function ProxyCommand(server: string, args: seq<string>): string {
    "sandbox-forward proxy --ssh --server " + Join(QuotedAll([server] + args), ' ')
  }

  /** The shell runs the forwarder with exactly the server and auth arguments it was given. */
  lemma ProxyCommandReadsBack(server: string, args: seq<string>)
    ensures Lex(Gap, ProxyCommand(server, args))
         == Some(["sandbox-forward", "proxy", "--ssh", "--server", server] + args)
  {
    hide Lex, Quoted;
    var more := Join(QuotedAll([server] + args), ' ');
    QuoteRoundTrip([server] + args);
    PlainWord("--server", more);
    PlainWord("--ssh", "--server" + (" " + more));
    PlainWord("proxy", "--ssh" + (" " + ("--server" + (" " + more))));
    PlainWord("sandbox-forward", "proxy" + (" " + ("--ssh" + (" " + ("--server" + (" " + more))))));
    assert ProxyCommand(server, args)
        == "sandbox-forward" + (" " + ("proxy" + (" " + ("--ssh" + (" " + ("--server" + (" " + more)))))));
    assert ["sandbox-forward"] + (["proxy"] + (["--ssh"] + (["--server"] + ([server] + args))))
        == ["sandbox-forward", "proxy", "--ssh", "--server", server] + args;
  }

  lemma PlainWord(w: string, rest: string)
    requires w != "" && forall i :: 0 <= i < |w| ==> Safe(w[i])
    ensures Lex(Gap, w + (" " + rest)) == Cons(w, Lex(Gap, rest))
  {
    LexSafe(Gap, w, " " + rest);
    assert "" + w == w;
    assert (" " + rest)[1..] == rest;
  }

  // ---- when quoting is needed ---------------------------------------------

  /** ASCII letters and digits by their codes, and seven punctuation characters. */
  predicate Bare(c: char) {
    97 <= c as int < 97 + 26 || 65 <= c as int < 65 + 26 || 48 <= c as int < 48 + 10 || c in "-_./:=@"
  }

  /** A string is left as it is exactly when it is not empty and holds such characters only. */
  lemma BareExactly(s: string)
    ensures Quoted(s) == s <==> s != "" && forall i :: 0 <= i < |s| ==> Bare(s[i])
  {
    assert forall c :: Safe(c) <==> Bare(c);
    EscapedLonger(s);
  }

  lemma {:induction false} EscapedLonger(s: string)
    ensures |Escaped(s)| >= |s|
  {
    if s != "" {
      EscapedLonger(s[1..]);
    }
  }
}
