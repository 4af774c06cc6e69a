/** internal/search/tokenize.go: identifier-aware tokenisation.
    The Unicode tables and the stopword list are a parameter, so every result holds for any of them. */
module Tokenize {
  import opened Text

  datatype CharClass = CharClass(
    isLetter: char -> bool, isDigit: char -> bool, isUpper: char -> bool, isLower: char -> bool,
    toLower: char -> char, stopwords: set<string>)

  predicate Alnum(cc: CharClass, c: char) {
    cc.isLetter(c) || cc.isDigit(c)
  }

  function Lower(cc: CharClass, s: string): (r: string)
    ensures |r| == |s|
  {
    if s == "" then "" else [cc.toLower(s[0])] + Lower(cc, s[1..])
  }

  lemma {:induction false} LowerAt(cc: CharClass, s: string, k: nat)
    requires k < |s|
    ensures Lower(cc, s)[k] == cc.toLower(s[k])
  {
    if k > 0 {
      LowerAt(cc, s[1..], k - 1);
    }
  }

  /** Length of the leading run of letters and digits. */
  function RunLength(cc: CharClass, s: string): (n: nat)
    ensures n <= |s|
    ensures forall k :: 0 <= k < n ==> Alnum(cc, s[k])
    ensures n < |s| ==> !Alnum(cc, s[n])
  {
    if s == "" || !Alnum(cc, s[0]) then 0 else 1 + RunLength(cc, s[1..])
  }

  /** The maximal runs of letters and digits (strings.FieldsFunc). */
  function Fields(cc: CharClass, s: string): (words: seq<string>)
    ensures forall w :: w in words ==> w != "" && forall c :: c in w ==> Alnum(cc, c)
  {
    var n := RunLength(cc, s);
    if s == "" then []
    else if n == 0 then Fields(cc, s[1..])
    else [s[..n]] + Fields(cc, s[n..])
  }

  predicate CamelBoundary(cc: CharClass, w: string, i: nat)
    requires 0 < i < |w|
  {
    var prev, cur := w[i - 1], w[i];
    || (cc.isLower(prev) && cc.isUpper(cur))
    || (i + 1 < |w| && cc.isUpper(prev) && cc.isUpper(cur) && cc.isLower(w[i + 1]))
    || cc.isLetter(prev) != cc.isLetter(cur)
  }

  /** The segments of w[start..] when positions before i are known not to be cuts. */
  function CamelParts(cc: CharClass, w: string, start: nat, i: nat): seq<string>
    requires start < i <= |w|
    decreases |w| - i
  {
    if i == |w| then [w[start..]]
    else if CamelBoundary(cc, w, i) then [w[start..i]] + CamelParts(cc, w, i, i + 1)
    else CamelParts(cc, w, start, i + 1)
  }

  function CamelSplit(cc: CharClass, w: string): seq<string> {
    if w == "" then [] else CamelParts(cc, w, 0, 1)
  }

  method SplitCamel(cc: CharClass, w: string) returns (parts: seq<string>)
    ensures parts == CamelSplit(cc, w)
  {
    parts := [];
    if w == "" {
      return;
    }
    var start := 0;
    for i := 1 to |w|
      invariant start < i
      invariant parts + CamelParts(cc, w, start, i) == CamelSplit(cc, w)
    {
      if CamelBoundary(cc, w, i) {
        parts := parts + [w[start..i]];
        start := i;
      }
    }
    parts := parts + [w[start..]];
  }

  /** With the first segment at offset base, some later segment starts at offset p. */
  predicate CutAt(parts: seq<string>, base: int, p: int) {
    |parts| >= 2 && (p == base + |parts[0]| || CutAt(parts[1..], base + |parts[0]|, p))
  }

  lemma {:induction false} CamelPartsCuts(cc: CharClass, w: string, start: nat, i: nat)
    requires start < i <= |w|
    ensures Concat(CamelParts(cc, w, start, i)) == w[start..]
    ensures forall s :: s in CamelParts(cc, w, start, i) ==> s != ""
    ensures forall p :: CutAt(CamelParts(cc, w, start, i), start, p) <==> i <= p < |w| && CamelBoundary(cc, w, p)
    decreases |w| - i
  {
    var parts := CamelParts(cc, w, start, i);
    if i == |w| {
      assert parts[1..] == [];
      ConcatCons(w[start..], []);
    } else if CamelBoundary(cc, w, i) {
      CamelPartsCuts(cc, w, i, i + 1);
      var rest := CamelParts(cc, w, i, i + 1);
      assert parts == [w[start..i]] + rest && parts[1..] == rest;
      assert w[start..i] + w[i..] == w[start..];
      ConcatCons(w[start..i], rest);
      assert rest != [];
      forall p ensures CutAt(parts, start, p) <==> p == i || CutAt(rest, i, p) {
      }
    } else {
      CamelPartsCuts(cc, w, start, i + 1);
    }
  }

  /** splitCamel loses nothing and cuts exactly at the three kinds of boundary. */
  lemma CamelSplitExact(cc: CharClass, w: string)
    ensures Concat(CamelSplit(cc, w)) == w
    ensures forall s :: s in CamelSplit(cc, w) ==> s != ""
    ensures forall p :: CutAt(CamelSplit(cc, w), 0, p) <==> 0 < p < |w| && CamelBoundary(cc, w, p)
  {
    if w != "" {
      CamelPartsCuts(cc, w, 0, 1);
    }
  }

  // ---- tokens -------------------------------------------------------------

  /** What one camel segment of a word contributes beside the whole word lw. */
  function SubToken(cc: CharClass, lw: string, sub: string): seq<string> {
    var ls := Lower(cc, sub);
    if ls == lw || ls == "" || ls in cc.stopwords then [] else [ls]
  }

  function SubTokens(cc: CharClass, lw: string, subs: seq<string>): seq<string> {
    if subs == [] then []
    else SubTokens(cc, lw, subs[..|subs| - 1]) + SubToken(cc, lw, subs[|subs| - 1])
  }

  function WholeToken(cc: CharClass, lw: string): seq<string> {
    if lw in cc.stopwords then [] else [lw]
  }

  function WordTokens(cc: CharClass, w: string): seq<string> {
    if w == "" then []
    else WholeToken(cc, Lower(cc, w)) + SubTokens(cc, Lower(cc, w), CamelSplit(cc, w))
  }

  function WordsTokens(cc: CharClass, words: seq<string>): seq<string> {
    if words == [] then []
    else WordsTokens(cc, words[..|words| - 1]) + WordTokens(cc, words[|words| - 1])
  }

  function TokensOf(cc: CharClass, s: string): seq<string> {
    WordsTokens(cc, Fields(cc, s))
  }

  /** Tokenize's inner loop: the segments of one word, appended to whole. */
  method AppendSubTokens(cc: CharClass, lw: string, subs: seq<string>, whole: seq<string>) returns (out: seq<string>)
    ensures out == whole + SubTokens(cc, lw, subs)
  {
    out := whole;
    for j := 0 to |subs|
      invariant out == whole + SubTokens(cc, lw, subs[..j])
    {
      var ls := Lower(cc, subs[j]);
      SubTokensSnoc(cc, lw, subs, j);
      if ls == lw || ls == "" || ls in cc.stopwords {
        continue;
      }
      out := out + [ls];
    }
    assert subs[..|subs|] == subs;
  }

  /** The body of Tokenize's outer loop: the tokens of one word, appended to before. */
  method AppendWord(cc: CharClass, w: string, before: seq<string>) returns (out: seq<string>)
    ensures out == before + WordTokens(cc, w)
  {
    out := before;
    if w == "" {
      return;
    }
    var lw := Lower(cc, w);
    if lw !in cc.stopwords {
      out := out + [lw];
    }
    var subs := SplitCamel(cc, w);
    out := AppendSubTokens(cc, lw, subs, out);
    assert out == before + (WholeToken(cc, lw) + SubTokens(cc, lw, subs));
  }

  method Tokenize(cc: CharClass, s: string) returns (out: seq<string>)
    ensures out == TokensOf(cc, s)
  {
    out := [];
    if s == "" {
      return;
    }
    var words := Fields(cc, s);
    for k := 0 to |words|
      invariant out == WordsTokens(cc, words[..k])
    {
      out := AppendWord(cc, words[k], out);
      WordsTokensSnoc(cc, words, k);
    }
    assert words[..|words|] == words;
  }

  lemma SubTokensSnoc(cc: CharClass, lw: string, subs: seq<string>, j: nat)
    requires j < |subs|
    ensures SubTokens(cc, lw, subs[..j + 1]) == SubTokens(cc, lw, subs[..j]) + SubToken(cc, lw, subs[j])
  {
    assert subs[..j + 1][..j] == subs[..j];
  }

  lemma WordsTokensSnoc(cc: CharClass, words: seq<string>, k: nat)
    requires k < |words|
    ensures WordsTokens(cc, words[..k + 1]) == WordsTokens(cc, words[..k]) + WordTokens(cc, words[k])
  {
    assert words[..k + 1][..k] == words[..k];
  }

  /** t comes from word w: it is the word, or one of its camel segments, in lower case. */
  ghost predicate TokenOfWord(cc: CharClass, w: string, t: string) {
    t == Lower(cc, w) || exists sub :: sub in CamelSplit(cc, w) && t == Lower(cc, sub)
  }

  lemma {:induction false} SubTokensMeaning(cc: CharClass, lw: string, subs: seq<string>, t: string)
    ensures t in SubTokens(cc, lw, subs)
       <==> t != lw && t != "" && t !in cc.stopwords && exists sub :: sub in subs && t == Lower(cc, sub)
  {
    if subs != [] {
      var n := |subs| - 1;
      SubTokensMeaning(cc, lw, subs[..n], t);
      assert subs == subs[..n] + [subs[n]];
      assert forall sub :: sub in subs[..n] + [subs[n]] <==> sub in subs[..n] || sub == subs[n];
      assert t in SubToken(cc, lw, subs[n]) <==> t != lw && t != "" && t !in cc.stopwords && t == Lower(cc, subs[n]);
      assert t in SubTokens(cc, lw, subs) <==> t in SubTokens(cc, lw, subs[..n]) || t in SubToken(cc, lw, subs[n]);
      assert (exists sub :: sub in subs && t == Lower(cc, sub))
        <==> (exists sub :: sub in subs[..n] && t == Lower(cc, sub)) || t == Lower(cc, subs[n]);
    }
  }

  lemma WordTokensMeaning(cc: CharClass, w: string, t: string)
    requires w != ""
    ensures t in WordTokens(cc, w) <==> t !in cc.stopwords && TokenOfWord(cc, w, t)
  {
    var subs := CamelSplit(cc, w);
    SubTokensMeaning(cc, Lower(cc, w), subs, t);
    CamelSplitExact(cc, w);
    assert forall sub :: sub in subs ==> Lower(cc, sub) != "";
    assert t in WholeToken(cc, Lower(cc, w)) <==> t == Lower(cc, w) && t !in cc.stopwords;
  }

  lemma {:induction false} WordsTokensMeaning(cc: CharClass, words: seq<string>, t: string)
    requires forall w :: w in words ==> w != ""
    ensures t in WordsTokens(cc, words) <==> t !in cc.stopwords && exists w :: w in words && TokenOfWord(cc, w, t)
  {
    if words != [] {
      var n := |words| - 1;
      var w := words[n];
      assert words == words[..n] + [w];
      assert forall v :: v in words[..n] + [w] <==> v in words[..n] || v == w;
      WordsTokensMeaning(cc, words[..n], t);
      assert w in words;
      WordTokensMeaning(cc, w, t);
    }
  }

  /** The tokens of s are exactly the non-stopword words and camel segments of s, in lower case. */
  lemma TokensMeaning(cc: CharClass, s: string, t: string)
    ensures t in TokensOf(cc, s)
       <==> t !in cc.stopwords && exists w :: w in Fields(cc, s) && TokenOfWord(cc, w, t)
    ensures t in TokensOf(cc, s) ==> t != ""
  {
    WordsTokensMeaning(cc, Fields(cc, s), t);
    if t in TokensOf(cc, s) {
      var w :| w in Fields(cc, s) && TokenOfWord(cc, w, t);
      CamelSplitExact(cc, w);
    }
  }

  // ---- the words of a text ------------------------------------------------

  /** s[i..j] is a run of letters and digits that extends neither way. */
  ghost predicate MaximalRun(cc: CharClass, s: string, i: int, j: int) {
    && 0 <= i < j <= |s|
    && (forall k :: i <= k < j ==> Alnum(cc, s[k]))
    && (i > 0 ==> !Alnum(cc, s[i - 1]))
    && (j < |s| ==> !Alnum(cc, s[j]))
  }

  datatype Span = Span(from: int, until: int)

  /** The spans are the maximal runs of s that start at base or later, in order, and words their texts. */
  ghost predicate Runs(cc: CharClass, s: string, base: int, spans: seq<Span>, words: seq<string>) {
    && |spans| == |words|
    && (forall k :: 0 <= k < |spans| ==> RunAt(cc, s, base, spans[k], words[k]))
    && (forall k, l :: 0 <= k < l < |spans| ==> spans[k].until <= spans[l].from)
    && (forall i, j :: base <= i && MaximalRun(cc, s, i, j) ==> Span(i, j) in spans)
  }

  ghost predicate RunAt(cc: CharClass, s: string, base: int, span: Span, word: string) {
    base <= span.from && MaximalRun(cc, s, span.from, span.until) && word == s[span.from..span.until]
  }

  lemma {:induction false} FieldsFrom(cc: CharClass, s: string, base: nat) returns (spans: seq<Span>)
    requires base <= |s| && (0 < base < |s| ==> !Alnum(cc, s[base - 1]) || !Alnum(cc, s[base]))
    ensures Runs(cc, s, base, spans, Fields(cc, s[base..]))
    decreases |s| - base
  {
    var t := s[base..];
    var n := RunLength(cc, t);
    spans := [];
    if base < |s| {
      forall k | base <= k < base + n ensures Alnum(cc, s[k]) {
        assert t[k - base] == s[k];
      }
      assert n < |t| ==> t[n] == s[base + n];
      if n == 0 {
        assert t[1..] == s[base + 1..];
        spans := FieldsFrom(cc, s, base + 1);
        NoRunHere(cc, s, base);
        RunsEarlier(cc, s, base, spans, Fields(cc, s[base + 1..]));
      } else {
        assert t[n..] == s[base + n..] && t[..n] == s[base..base + n];
        var rest := FieldsFrom(cc, s, base + n);
        spans := [Span(base, base + n)] + rest;
        RunsCons(cc, s, base, n, rest, Fields(cc, s[base + n..]));
      }
    }
  }

  lemma NoRunHere(cc: CharClass, s: string, base: int)
    requires 0 <= base < |s| && !Alnum(cc, s[base])
    ensures forall j :: !MaximalRun(cc, s, base, j)
  {}

  lemma RunsEarlier(cc: CharClass, s: string, base: int, spans: seq<Span>, words: seq<string>)
    requires Runs(cc, s, base + 1, spans, words) && forall j :: !MaximalRun(cc, s, base, j)
    ensures Runs(cc, s, base, spans, words)
  {
    hide MaximalRun;
  }

  lemma RunsCons(cc: CharClass, s: string, base: int, n: nat, rest: seq<Span>, words: seq<string>)
    requires 0 < n && MaximalRun(cc, s, base, base + n) && Runs(cc, s, base + n, rest, words)
    ensures Runs(cc, s, base, [Span(base, base + n)] + rest, [s[base..base + n]] + words)
  {
    hide MaximalRun;
    RunInText(cc, s, base, base + n);
    var spans := [Span(base, base + n)] + rest;
    RunsAtCons(cc, s, base, n, rest, words);
    forall i, j | base <= i && MaximalRun(cc, s, i, j) ensures Span(i, j) in spans {
      FirstOrLater(cc, s, base, n, rest, words, i, j);
      InCons(Span(i, j), Span(base, base + n), rest);
    }
  }

  lemma RunsAtCons(cc: CharClass, s: string, base: int, n: nat, rest: seq<Span>, words: seq<string>)
    requires 0 < n && MaximalRun(cc, s, base, base + n) && Runs(cc, s, base + n, rest, words)
    requires 0 <= base <= base + n <= |s|
    ensures var spans, all := [Span(base, base + n)] + rest, [s[base..base + n]] + words;
      && |spans| == |all|
      && (forall k :: 0 <= k < |spans| ==> RunAt(cc, s, base, spans[k], all[k]))
      && (forall k, l :: 0 <= k < l < |spans| ==> spans[k].until <= spans[l].from)
  {
    hide MaximalRun;
    var spans, all := [Span(base, base + n)] + rest, [s[base..base + n]] + words;
    forall k | 0 <= k < |spans| ensures RunAt(cc, s, base, spans[k], all[k]) {
      assert k > 0 ==> RunAt(cc, s, base + n, rest[k - 1], words[k - 1]);
    }
    forall k, l | 0 <= k < l < |spans| ensures spans[k].until <= spans[l].from {
      assert RunAt(cc, s, base + n, rest[l - 1], words[l - 1]);
      assert k > 0 ==> rest[k - 1].until <= rest[l - 1].from;
    }
  }

  lemma FirstOrLater(cc: CharClass, s: string, base: int, n: nat, rest: seq<Span>, words: seq<string>, i: int, j: int)
    requires 0 < n && MaximalRun(cc, s, base, base + n) && Runs(cc, s, base + n, rest, words)
    requires base <= i && MaximalRun(cc, s, i, j)
    ensures Span(i, j) == Span(base, base + n) || Span(i, j) in rest
  {
    if i < base + n {
      OneRun(cc, s, base, base + n, i, j);
    }
  }

  /** Maximal runs do not overlap. */
  lemma OneRun(cc: CharClass, s: string, i: int, j: int, i': int, j': int)
    requires MaximalRun(cc, s, i, j) && MaximalRun(cc, s, i', j') && i <= i' < j
    ensures i == i' && j == j'
  {
  }

  /** The words of a text are exactly its maximal runs of letters and digits, in order, once each. */
  lemma FieldsExact(cc: CharClass, s: string) returns (spans: seq<Span>)
    ensures Runs(cc, s, 0, spans, Fields(cc, s))
  {
    assert s[0..] == s;
    spans := FieldsFrom(cc, s, 0);
  }

  /** t comes from the maximal run s[i..j]. */
  ghost predicate TokenOfRun(cc: CharClass, s: string, i: int, j: int, t: string) {
    MaximalRun(cc, s, i, j) && TokenOfWord(cc, s[i..j], t)
  }

  /** A token of s is exactly a non-stopword that is, in lower case, a maximal run of s or a camel
      segment of one. */
  lemma TokensExact(cc: CharClass, s: string, t: string)
    ensures t in TokensOf(cc, s)
      <==> t !in cc.stopwords && exists i, j :: TokenOfRun(cc, s, i, j, t)
  {
    hide MaximalRun, TokenOfWord;
    TokensMeaning(cc, s, t);
    var spans := FieldsExact(cc, s);
    var words := Fields(cc, s);
    if w :| w in words && TokenOfWord(cc, w, t) {
      var k :| 0 <= k < |words| && words[k] == w;
      assert RunAt(cc, s, 0, spans[k], words[k]);
      assert TokenOfRun(cc, s, spans[k].from, spans[k].until, t);
    }
    if i, j :| TokenOfRun(cc, s, i, j, t) {
      RunInText(cc, s, i, j);
      assert Span(i, j) in spans;
      var k :| 0 <= k < |spans| && spans[k] == Span(i, j);
      assert RunAt(cc, s, 0, spans[k], words[k]);
      assert words[k] in words;
    }
  }

  lemma RunInText(cc: CharClass, s: string, i: int, j: int)
    requires MaximalRun(cc, s, i, j)
    ensures 0 <= i < j <= |s|
  {}

  // ---- order and multiplicity ---------------------------------------------

  /** A segment contributes a token of its own. */
  predicate Counts(cc: CharClass, lw: string, sub: string) {
    var ls := Lower(cc, sub);
    ls != lw && ls != "" && ls !in cc.stopwords
  }

  lemma SubTokensLast(cc: CharClass, lw: string, subs: seq<string>)
    requires subs != []
    ensures var n := |subs| - 1;
      SubTokens(cc, lw, subs)
        == SubTokens(cc, lw, subs[..n]) + if Counts(cc, lw, subs[n]) then [Lower(cc, subs[n])] else []
  {
    hide Lower;
  }

  function Counting(cc: CharClass, lw: string, subs: seq<string>): set<int> {
    set i | 0 <= i < |subs| && Counts(cc, lw, subs[i])
  }

  /** out are the tokens of the segments at positions ps. */
  ghost predicate TokensAt(cc: CharClass, subs: seq<string>, ps: seq<int>, out: seq<string>) {
    |out| == |ps| && forall k :: 0 <= k < |ps| ==> 0 <= ps[k] < |subs| && out[k] == Lower(cc, subs[ps[k]])
  }

  lemma CountingSnoc(cc: CharClass, lw: string, subs: seq<string>)
    requires subs != []
    ensures var n := |subs| - 1;
      Counting(cc, lw, subs) == Counting(cc, lw, subs[..n]) + if Counts(cc, lw, subs[n]) then {n} else {}
  {
    hide Counts;
  }

  lemma TokensAtSnoc(cc: CharClass, subs: seq<string>, ps: seq<int>, out: seq<string>)
    requires subs != [] && TokensAt(cc, subs[..|subs| - 1], ps, out)
    ensures TokensAt(cc, subs, ps, out)
    ensures TokensAt(cc, subs, ps + [|subs| - 1], out + [Lower(cc, subs[|subs| - 1])])
  {
    hide Lower;
    forall k | 0 <= k < |ps| ensures 0 <= ps[k] < |subs| - 1 && out[k] == Lower(cc, subs[ps[k]]) {
      assert subs[..|subs| - 1][ps[k]] == subs[ps[k]];
    }
  }

  /** The segments of a word that count contribute one token each, in their order. */
  lemma {:induction false} SubTokensExact(cc: CharClass, lw: string, subs: seq<string>) returns (ps: seq<int>)
    ensures InOrder(Counting(cc, lw, subs), ps)
    ensures TokensAt(cc, subs, ps, SubTokens(cc, lw, subs))
  {
    ps := [];
    if subs != [] {
      var n := |subs| - 1;
      ps := SubTokensExact(cc, lw, subs[..n]);
      SubTokensLast(cc, lw, subs);
      CountingSnoc(cc, lw, subs);
      TokensAtSnoc(cc, subs, ps, SubTokens(cc, lw, subs[..n]));
      assert forall i :: i in Counting(cc, lw, subs[..n]) ==> i < n;
      InOrderSnoc(Counting(cc, lw, subs[..n]), ps, n);
      hide TokensAt, InOrder, Counting, SubTokens, Counts, Lower;
      if Counts(cc, lw, subs[n]) {
        ps := ps + [n];
      } else {
        assert SubTokens(cc, lw, subs) == SubTokens(cc, lw, subs[..n]);
        assert Counting(cc, lw, subs) == Counting(cc, lw, subs[..n]);
      }
    }
  }

  /** A text of one word gives the word, unless it is a stopword, and then its segments' tokens. */
  lemma OneWord(cc: CharClass, w: string)
    requires w != "" && forall k :: 0 <= k < |w| ==> Alnum(cc, w[k])
    ensures TokensOf(cc, w)
         == (if Lower(cc, w) in cc.stopwords then [] else [Lower(cc, w)])
            + SubTokens(cc, Lower(cc, w), CamelSplit(cc, w))
  {
    hide SubTokens, CamelSplit, Lower, Fields;
    OneField(cc, w);
    assert [w][..0] == [];
    assert WordsTokens(cc, []) == [];
  }

  lemma OneField(cc: CharClass, w: string)
    requires w != "" && forall k :: 0 <= k < |w| ==> Alnum(cc, w[k])
    ensures Fields(cc, w) == [w]
  {
    RunLengthIs(cc, w, |w|);
    assert w[..|w|] == w && w[|w|..] == "";
    assert Fields(cc, "") == [];
  }

  lemma RunLengthIs(cc: CharClass, s: string, n: nat)
    requires n <= |s| && (forall k :: 0 <= k < n ==> Alnum(cc, s[k])) && (n < |s| ==> !Alnum(cc, s[n]))
    ensures RunLength(cc, s) == n
  {
    var m := RunLength(cc, s);
    assert n < |s| ==> m <= n;
    assert m < |s| ==> n <= m;
  }

  /** Texts joined by any separator are tokenised one after the other. */
  lemma TokensConcat(cc: CharClass, a: string, c: char, b: string)
    requires !Alnum(cc, c)
    ensures TokensOf(cc, a + [c] + b) == TokensOf(cc, a) + TokensOf(cc, b)
  {
    FieldsConcat(cc, a, c, b);
    WordsTokensConcat(cc, Fields(cc, a), Fields(cc, b));
  }

  lemma {:induction false} WordsTokensConcat(cc: CharClass, a: seq<string>, b: seq<string>)
    ensures WordsTokens(cc, a + b) == WordsTokens(cc, a) + WordsTokens(cc, b)
  {
    if b == [] {
      assert a + b == a;
    } else {
      var n := |b| - 1;
      WordsTokensConcat(cc, a, b[..n]);
      LastOfConcat(a, b);
      hide WordTokens;
      Assoc(WordsTokens(cc, a), WordsTokens(cc, b[..n]), WordTokens(cc, b[n]));
    }
  }

  lemma RunLengthConcat(cc: CharClass, a: string, c: char, b: string)
    requires !Alnum(cc, c)
    ensures RunLength(cc, a + [c] + b) == RunLength(cc, a)
  {
    var s := a + [c] + b;
    assert s[|a|] == c;
    assert forall k :: 0 <= k < |a| ==> s[k] == a[k];
    RunLengthIs(cc, s, RunLength(cc, a));
  }

  lemma {:induction false} FieldsConcat(cc: CharClass, a: string, c: char, b: string)
    requires !Alnum(cc, c)
    ensures Fields(cc, a + [c] + b) == Fields(cc, a) + Fields(cc, b)
    decreases |a|
  {
    var s := a + [c] + b;
    var n := RunLength(cc, a);
    RunLengthConcat(cc, a, c, b);
    if a == "" {
      assert s[1..] == b && s != "";
    } else if n == 0 {
      assert s[1..] == a[1..] + [c] + b;
      FieldsConcat(cc, a[1..], c, b);
    } else {
      assert s[n..] == a[n..] + [c] + b && s[..n] == a[..n];
      FieldsConcat(cc, a[n..], c, b);
      FieldsWord(cc, s);
      FieldsWord(cc, a);
      Assoc([a[..n]], Fields(cc, a[n..]), Fields(cc, b));
    }
  }

  lemma FieldsWord(cc: CharClass, s: string)
    requires s != "" && RunLength(cc, s) > 0
    ensures Fields(cc, s) == [s[..RunLength(cc, s)]] + Fields(cc, s[RunLength(cc, s)..])
  {}

  // ---- the three kinds of boundary ----------------------------------------

  /** The character classes fit together as Unicode's do. */
  ghost predicate Consistent(cc: CharClass) {
    forall c :: !(cc.isUpper(c) && cc.isLower(c)) && (cc.isUpper(c) || cc.isLower(c) ==> cc.isLetter(c))
             && (cc.isDigit(c) ==> !cc.isLetter(c))
  }

  ghost predicate All(p: char -> bool, s: string) {
    s != "" && forall k :: 0 <= k < |s| ==> p(s[k])
  }

  lemma {:induction false} NoCutUntil(cc: CharClass, w: string, start: nat, i: nat, j: nat)
    requires start < i <= j <= |w|
    requires forall k :: i <= k < j ==> !CamelBoundary(cc, w, k)
    ensures CamelParts(cc, w, start, i) == CamelParts(cc, w, start, j)
    decreases j - i
  {
    if i < j {
      NoCutUntil(cc, w, start, i + 1, j);
    }
  }

  /** A word with a single boundary falls into two segments there. */
  lemma OneCut(cc: CharClass, a: string, b: string)
    requires a != "" && b != ""
    requires forall p :: 0 < p < |a + b| ==> (CamelBoundary(cc, a + b, p) <==> p == |a|)
    ensures CamelSplit(cc, a + b) == [a, b]
  {
    var w := a + b;
    NoCutUntil(cc, w, 0, 1, |a|);
    NoCutUntil(cc, w, |a|, |a| + 1, |w|);
    assert w[0..|a|] == a && w[|a|..] == b;
    assert CamelParts(cc, w, |a|, |w|) == [b];
  }

  /** fileHandler: a lower-case run and a capitalised one. */
  lemma LowerThenCapitalised(cc: CharClass, a: string, u: char, b: string)
    requires Consistent(cc) && All(cc.isLower, a) && cc.isUpper(u) && All(cc.isLower, b)
    ensures CamelSplit(cc, a + ([u] + b)) == [a, [u] + b]
  {
    var w := a + ([u] + b);
    forall p | 0 < p < |w| ensures CamelBoundary(cc, w, p) <==> p == |a| {
      assert p < |a| ==> w[p] == a[p] && w[p - 1] == a[p - 1];
      assert p == |a| ==> w[p] == u && w[p - 1] == a[p - 1];
      assert p == |a| + 1 ==> w[p] == b[0] && w[p - 1] == u;
      assert p > |a| + 1 ==> w[p] == b[p - |a| - 1] && w[p - 1] == b[p - |a| - 2];
    }
    OneCut(cc, a, [u] + b);
  }

  /** HTTPServer: an acronym and a capitalised word; the cut is before the last capital. */
  lemma AcronymThenCapitalised(cc: CharClass, a: string, u: char, b: string)
    requires Consistent(cc) && All(cc.isUpper, a) && cc.isUpper(u) && All(cc.isLower, b)
    ensures CamelSplit(cc, a + ([u] + b)) == [a, [u] + b]
  {
    var w := a + ([u] + b);
    forall p | 0 < p < |w| ensures CamelBoundary(cc, w, p) <==> p == |a| {
      assert p < |a| ==> w[p] == a[p] && w[p - 1] == a[p - 1];
      assert p + 1 < |a| ==> w[p + 1] == a[p + 1];
      assert p + 1 == |a| ==> w[p + 1] == u;
      assert p == |a| ==> w[p] == u && w[p - 1] == a[p - 1] && w[p + 1] == b[0];
      assert p == |a| + 1 ==> w[p] == b[0] && w[p - 1] == u;
      assert p > |a| + 1 ==> w[p] == b[p - |a| - 1] && w[p - 1] == b[p - |a| - 2];
    }
    OneCut(cc, a, [u] + b);
  }

  /** utf8 and 8bit: letters of one case and digits, either way round. */
  lemma LettersAndDigits(cc: CharClass, a: string, d: string)
    requires Consistent(cc) && (All(cc.isLower, a) || All(cc.isUpper, a)) && All(cc.isDigit, d)
    ensures CamelSplit(cc, a + d) == [a, d]
    ensures CamelSplit(cc, d + a) == [d, a]
  {
    DigitsAfter(cc, a, d);
    DigitsBefore(cc, a, d);
  }

  lemma DigitsAfter(cc: CharClass, a: string, d: string)
    requires Consistent(cc) && (All(cc.isLower, a) || All(cc.isUpper, a)) && All(cc.isDigit, d)
    ensures CamelSplit(cc, a + d) == [a, d]
  {
    var w := a + d;
    forall p | 0 < p < |w| ensures CamelBoundary(cc, w, p) <==> p == |a| {
      assert p < |a| ==> w[p] == a[p];
      assert p <= |a| ==> w[p - 1] == a[p - 1];
      assert p >= |a| ==> w[p] == d[p - |a|];
      assert p > |a| ==> w[p - 1] == d[p - |a| - 1];
      assert p + 1 < |a| ==> w[p + 1] == a[p + 1];
      assert |a| <= p + 1 < |w| ==> w[p + 1] == d[p + 1 - |a|];
    }
    OneCut(cc, a, d);
  }

  lemma DigitsBefore(cc: CharClass, a: string, d: string)
    requires Consistent(cc) && (All(cc.isLower, a) || All(cc.isUpper, a)) && All(cc.isDigit, d)
    ensures CamelSplit(cc, d + a) == [d, a]
  {
    var w := d + a;
    forall p | 0 < p < |w| ensures CamelBoundary(cc, w, p) <==> p == |d| {
      assert p < |d| ==> w[p] == d[p];
      assert p <= |d| ==> w[p - 1] == d[p - 1];
      assert p >= |d| ==> w[p] == a[p - |d|];
      assert p > |d| ==> w[p - 1] == a[p - |d| - 1];
      assert |d| <= p + 1 < |w| ==> w[p + 1] == a[p + 1 - |d|];
    }
    OneCut(cc, d, a);
  }
}
