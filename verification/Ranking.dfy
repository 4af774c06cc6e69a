/** internal/search/index.go: BM25 scores, and what an answer to a query is. */
module Ranking {
  import opened Text
  import opened Tokenize
  import opened IndexState

  const K1: real := 1.5
  const B: real := 0.75

  datatype Result = Result(unit: Unit, score: real)

  datatype Key = Key(score: real, file: string, symbol: string)

  /** The facts about math.Log the ranking depends on. */
  ghost predicate LogLike(ln: real -> real) {
    ln(1.0) == 0.0 && forall x, y :: 0.0 < x < y ==> ln(x) < ln(y)
  }

  /** The corpus-wide numbers a score reads. */
  datatype Stats = Stats(docs: int, total: int, df: map<string, int>)

  function StatsOf(s: State): Stats {
    Stats(s.totalDocs, s.totalLen, s.df)
  }

  /** The numbers are those of a corpus that has toks as one of its token vectors. */
  ghost predicate Fits(st: Stats, toks: seq<string>) {
    st.docs > 0 && |toks| <= st.total && forall t :: t in toks ==> t in st.df && 0 < st.df[t] <= st.docs
  }

  function Idf(ln: real -> real, docs: int, df: int): real
    requires 0 < df
  {
    ln(1.0 + (docs as real - df as real + 0.5) / (df as real + 0.5))
  }

  function Norm(dl: int, docs: int, total: int): real
    requires 0 < docs && 0 < total
  {
    1.0 - B + B * (dl as real / (total as real / docs as real))
  }

  function TermScore(idf: real, tf: int, norm: real): real
    requires tf as real + K1 * norm != 0.0
  {
    idf * (tf as real * (K1 + 1.0)) / (tf as real + K1 * norm)
  }

  lemma IdfPositive(ln: real -> real, docs: int, df: int)
    requires LogLike(ln) && 0 < df <= docs
    ensures Idf(ln, docs, df) > 0.0
  {
    assert (docs as real - df as real + 0.5) / (df as real + 0.5) > 0.0;
  }

  lemma RatioNonNegative(a: real, b: real)
    requires a >= 0.0 && b > 0.0
    ensures a / b >= 0.0
    ensures a > 0.0 ==> a / b > 0.0
  {}

  lemma NormPositive(dl: int, docs: int, total: int)
    requires 0 <= dl && 0 < docs && 0 < total
    ensures Norm(dl, docs, total) >= 0.25
  {
    RatioNonNegative(total as real, docs as real);
    RatioNonNegative(dl as real, total as real / docs as real);
  }

  lemma TermScorePositive(idf: real, tf: int, norm: real)
    requires idf > 0.0 && tf > 0 && norm >= 0.25
    ensures tf as real + K1 * norm > 0.0
    ensures TermScore(idf, tf, norm) > 0.0
  {
    RatioNonNegative(idf * (tf as real * (K1 + 1.0)), tf as real + K1 * norm);
  }

  /** What query token qt adds to the score of a unit with token vector toks. */
  ghost function Contribution(ln: real -> real, st: Stats, qt: string, toks: seq<string>): (r: real)
    requires Fits(st, toks) && LogLike(ln)
    ensures r >= 0.0
    ensures r > 0.0 <==> qt in toks
  {
    var tf := multiset(toks)[qt];
    if tf == 0 then 0.0
    else
      assert qt in toks && |toks| > 0;
      IdfPositive(ln, st.docs, st.df[qt]);
      NormPositive(|toks|, st.docs, st.total);
      var norm := Norm(|toks|, st.docs, st.total);
      TermScorePositive(Idf(ln, st.docs, st.df[qt]), tf, norm);
      TermScore(Idf(ln, st.docs, st.df[qt]), tf, norm)
  }

  /** The BM25 score, summed over the query tokens in order. */
  ghost function Score(ln: real -> real, st: Stats, qtoks: seq<string>, toks: seq<string>): (r: real)
    requires Fits(st, toks) && LogLike(ln)
    ensures r >= 0.0
    ensures r > 0.0 <==> Shares(qtoks, toks)
  {
    if qtoks == [] then 0.0
    else
      assert forall t :: t in qtoks <==> t in qtoks[..|qtoks| - 1] || t == qtoks[|qtoks| - 1] by {
        assert qtoks == qtoks[..|qtoks| - 1] + [qtoks[|qtoks| - 1]];
      }
      Score(ln, st, qtoks[..|qtoks| - 1], toks) + Contribution(ln, st, qtoks[|qtoks| - 1], toks)
  }

  /** Some query token occurs in toks. */
  ghost predicate Shares(qtoks: seq<string>, toks: seq<string>) {
    exists t :: t in qtoks && t in toks
  }

  ghost predicate Hit(s: State, qtoks: seq<string>, id: int) {
    id in s.units && id in s.tokens && Shares(qtoks, s.tokens[id])
  }

  /** df never exceeds the number of units, and a unit's tokens are all in df. */
  lemma LiveFits(s: State, id: int)
    requires Counted(s) && id in s.tokens
    ensures Fits(StatsOf(s), s.tokens[id])
  {
    LengthSumBound(s.tokens, id);
    assert |s.tokens| > 0 by { SubsetSize({id}, s.tokens.Keys); }
    forall t | t in s.tokens[id] ensures t in s.df && 0 < s.df[t] <= s.totalDocs {
      DocsBound(s.tokens, t);
      assert DfIs(s.df, t, |Docs(s.tokens, t)|);
    }
  }

  /** The score of a live unit. */
  ghost function LiveScore(ln: real -> real, s: State, qtoks: seq<string>, id: int): (r: real)
    requires Counted(s) && LogLike(ln) && id in s.tokens
    ensures r >= 0.0
    ensures r > 0.0 <==> Shares(qtoks, s.tokens[id])
  {
    LiveFits(s, id);
    Score(ln, StatsOf(s), qtoks, s.tokens[id])
  }

  ghost function ResultOf(ln: real -> real, s: State, qtoks: seq<string>, id: int): Result
    requires Counted(s) && LogLike(ln) && id in s.units
  {
    Result(s.units[id], LiveScore(ln, s, qtoks, id))
  }

  ghost function ResultsOf(ln: real -> real, s: State, qtoks: seq<string>, ids: seq<int>): (rs: seq<Result>)
    requires Counted(s) && LogLike(ln) && forall id :: id in ids ==> id in s.units
    ensures |rs| == |ids|
    ensures forall k :: 0 <= k < |ids| ==> rs[k] == ResultOf(ln, s, qtoks, ids[k])
  {
    if ids == [] then []
    else
      ResultsOf(ln, s, qtoks, ids[..|ids| - 1]) + [ResultOf(ln, s, qtoks, ids[|ids| - 1])]
  }

  function KeyOf(r: Result): Key {
    Key(r.score, r.unit.file, r.unit.symbol)
  }

  function Keys(rs: seq<Result>): seq<Key> {
    Mapped(KeyOf, rs)
  }

  /** Highest score first, ties by file and then by symbol. */
  predicate KeyBefore(a: Key, b: Key) {
    if a.score != b.score then a.score > b.score
    else if a.file != b.file then Less(a.file, b.file)
    else Less(a.symbol, b.symbol)
  }

  predicate Before(a: Result, b: Result) {
    KeyBefore(KeyOf(a), KeyOf(b))
  }

  /** full lists each hit exactly once, in comparator order; order names the hits in the order
      they were collected. */
  ghost predicate Ranks(ln: real -> real, s: State, qtoks: seq<string>, order: seq<int>, full: seq<Result>)
    requires Counted(s) && LogLike(ln)
  {
    && NoDup(order)
    && (forall id :: id in order <==> Hit(s, qtoks, id))
    && multiset(full) == multiset(ResultsOf(ln, s, qtoks, order))
    && SortedBy(full, Before)
  }

  /** r is an answer to the query tokens qtoks under limit. */
  ghost predicate Answers(ln: real -> real, s: State, qtoks: seq<string>, limit: int, r: seq<Result>)
    requires Counted(s) && LogLike(ln)
  {
    exists order, full :: Ranks(ln, s, qtoks, order, full) && r == Limited(full, limit)
  }

  /** One more query token: its contribution is added, and is zero for units without it. */
  lemma ScoreStep(ln: real -> real, s: State, qtoks: seq<string>, k: nat, id: int)
    requires Counted(s) && LogLike(ln) && id in s.tokens && k < |qtoks|
    ensures Fits(StatsOf(s), s.tokens[id])
    ensures LiveScore(ln, s, qtoks[..k + 1], id)
         == LiveScore(ln, s, qtoks[..k], id) + Contribution(ln, StatsOf(s), qtoks[k], s.tokens[id])
    ensures qtoks[k] !in s.tokens[id] ==> LiveScore(ln, s, qtoks[..k + 1], id) == LiveScore(ln, s, qtoks[..k], id)
    ensures Shares(qtoks[..k + 1], s.tokens[id]) <==> Shares(qtoks[..k], s.tokens[id]) || qtoks[k] in s.tokens[id]
  {
    LiveFits(s, id);
    assert qtoks[..k + 1][..k] == qtoks[..k];
    assert forall t :: t in qtoks[..k + 1] <==> t in qtoks[..k] || t == qtoks[k] by {
      assert qtoks[..k + 1] == qtoks[..k] + [qtoks[k]];
    }
  }

  lemma LiveKeys(s: State)
    requires Counted(s)
    ensures s.tokens.Keys == s.units.Keys
    ensures forall id :: id in s.tokens ==> !Shares([], s.tokens[id])
  {}

  /** What Search computes for a unit with token qt is well defined and is qt's contribution. */
  lemma StepNumbers(ln: real -> real, s: State, qt: string, id: int)
    requires Counted(s) && LogLike(ln) && id in s.tokens && qt in s.tokens[id]
    ensures id in s.lengths && 0 < s.totalDocs && 0 < s.totalLen && qt in s.df && 0 < s.df[qt]
    ensures Fits(StatsOf(s), s.tokens[id])
    ensures var norm := Norm(s.lengths[id], s.totalDocs, s.totalLen);
      multiset(s.tokens[id])[qt] as real + K1 * norm != 0.0
      && Contribution(ln, StatsOf(s), qt, s.tokens[id])
        == TermScore(Idf(ln, s.totalDocs, s.df[qt]), multiset(s.tokens[id])[qt], norm)
  {
    LiveFits(s, id);
    var norm := Norm(s.lengths[id], s.totalDocs, s.totalLen);
    NormPositive(|s.tokens[id]|, s.totalDocs, s.totalLen);
    IdfPositive(ln, s.totalDocs, s.df[qt]);
    TermScorePositive(Idf(ln, s.totalDocs, s.df[qt]), multiset(s.tokens[id])[qt], norm);
  }

  /** scores holds exactly the units touched by the query tokens q, with their scores so far. */
  ghost predicate Scored(ln: real -> real, s: State, q: seq<string>, scores: map<int, real>, id: int)
    requires Counted(s) && LogLike(ln) && id in s.tokens
  {
    && (id in scores <==> Shares(q, s.tokens[id]))
    && (id in scores ==> scores[id] == LiveScore(ln, s, q, id))
  }

  lemma KeyBeforeTotal()
    ensures StrictTotal(KeyBefore)
  {
    LessStrictTotal();
    forall a: Key ensures !KeyBefore(a, a) {
      assert !Less(a.symbol, a.symbol);
    }
    forall a: Key, b: Key, c: Key | KeyBefore(a, b) && KeyBefore(b, c) ensures KeyBefore(a, c) {
      KeyBeforeTransitive(a, b, c);
    }
    forall a: Key, b: Key | a != b ensures KeyBefore(a, b) || KeyBefore(b, a) {
      LessTrichotomy(a.file, b.file);
      LessTrichotomy(a.symbol, b.symbol);
    }
  }

  lemma KeyBeforeTransitive(a: Key, b: Key, c: Key)
    requires KeyBefore(a, b) && KeyBefore(b, c)
    ensures KeyBefore(a, c)
  {
    if a.score == b.score == c.score {
      if a.file != b.file && b.file != c.file {
        LessTransitive(a.file, b.file, c.file);
        LessTrichotomy(a.file, c.file);
        LessTrichotomy(a.file, b.file);
      } else if a.file == b.file == c.file {
        LessTransitive(a.symbol, b.symbol, c.symbol);
      }
    }
  }

  lemma BeforeWeak()
    ensures StrictWeak(Before)
  {
    KeyBeforeTotal();
    TotalIsWeak(KeyBefore);
    forall a, b ensures Before(a, b) ==> !Before(b, a) {
      assert KeyBefore(KeyOf(a), KeyOf(b)) ==> !KeyBefore(KeyOf(b), KeyOf(a));
    }
    forall a, b, c | !Before(b, a) && !Before(c, b) ensures !Before(c, a) {
      assert !KeyBefore(KeyOf(b), KeyOf(a)) && !KeyBefore(KeyOf(c), KeyOf(b));
    }
  }

  // ---- what the numbers mean ----------------------------------------------

  /** The inverse document frequency in closed form. */
  lemma IdfClosedForm(ln: real -> real, docs: int, df: int)
    requires 0 < df
    ensures Idf(ln, docs, df) == ln((docs as real + 1.0) / (df as real + 0.5))
  {
    OnePlusQuotient(docs as real - df as real + 0.5, df as real + 0.5);
  }

  lemma OnePlusQuotient(x: real, d: real)
    requires d > 0.0
    ensures 1.0 + x / d == (x + d) / d
  {
    var q, p := x / d, (x + d) / d;
    assert q * d == x && p * d == x + d;
    assert (1.0 + q) * d == d + q * d;
    EqualByProduct(1.0 + q, p, d);
  }

  lemma EqualByProduct(p: real, q: real, d: real)
    requires d > 0.0 && p * d == q * d
    ensures p == q
  {
    assert p < q ==> p * d < q * d;
    assert q < p ==> q * d < p * d;
  }

  lemma LessByProduct(p: real, q: real, d: real)
    requires d > 0.0 && p * d < q * d
    ensures p < q
  {}

  lemma SmallerRatio(a: real, b: real, x: real)
    requires x > 0.0 && 0.0 < a < b
    ensures x / b < x / a
  {
    FractionLess(x, 1.0, b, 1.0, a);
  }

  /** Rarer tokens weigh more. */
  lemma IdfFalls(ln: real -> real, docs: int, a: int, b: int)
    requires LogLike(ln) && 0 < a < b && 0 <= docs
    ensures Idf(ln, docs, a) > Idf(ln, docs, b)
  {
    IdfClosedForm(ln, docs, a);
    IdfClosedForm(ln, docs, b);
    SmallerRatio(a as real + 0.5, b as real + 0.5, docs as real + 1.0);
    RatioNonNegative(docs as real + 1.0, b as real + 0.5);
  }

  /** The length normalisation is 1/4 at length zero, 1 at the average length, and linear. */
  lemma NormAnchors(docs: int, total: int, dl: int)
    requires 0 < docs && 0 < total
    ensures Norm(0, docs, total) == 0.25
    ensures dl * docs == total ==> Norm(dl, docs, total) == 1.0
    ensures Norm(dl, docs, total) == 0.25 + 0.75 * (dl as real * docs as real / total as real)
  {
    var t, n := total as real, docs as real;
    DivideByQuotient(dl as real, t, n);
    DivideByQuotient(0.0, t, n);
    if dl * docs == total {
      SelfQuotient(dl, docs, total);
    }
  }

  lemma SelfQuotient(a: int, b: int, c: int)
    requires a * b == c && c > 0
    ensures a as real * b as real / c as real == 1.0
  {
    assert a as real * b as real == (a * b) as real;
  }

  lemma DivideByQuotient(x: real, t: real, n: real)
    requires t > 0.0 && n > 0.0
    ensures x / (t / n) == x * n / t
  {
    var q := t / n;
    assert q * n == t;
    RatioNonNegative(t, n);
    assert x / q * q == x;
    assert x / q * t == x / q * (q * n) == x / q * q * n == x * n;
  }

  /** A term of frequency one in a unit of average length scores exactly its inverse document
      frequency, and no frequency scores more than two and a half times that. */
  lemma TermScoreAnchors(idf: real, tf: int, norm: real)
    requires idf > 0.0 && tf > 0 && norm >= 0.25
    ensures TermScore(idf, 1, 1.0) == idf
    ensures TermScore(idf, tf, norm) < 2.5 * idf
  {
    var d := tf as real + K1 * norm;
    assert idf * (tf as real * (K1 + 1.0)) == 2.5 * idf * tf as real;
    QuotientBelow(2.5 * idf, tf as real, d);
  }

  lemma QuotientBelow(c: real, x: real, d: real)
    requires c > 0.0 && 0.0 < x < d
    ensures c * x / d < c
  {
    assert c * x < c * d;
    assert c * x / d * d == c * x;
    LessByProduct(c * x / d, c, d);
  }

  /** Shorter units score higher, and so do more occurrences. */
  lemma TermScoreMonotone(idf: real, tf: int, tf': int, norm: real, norm': real)
    requires idf > 0.0 && norm >= 0.25 && norm' >= 0.25 && 0 < tf <= tf' && norm' <= norm
    requires tf < tf' || norm' < norm
    ensures TermScore(idf, tf, norm) < TermScore(idf, tf', norm')
  {
    var x, y := tf as real, tf' as real;
    var d, e := x + K1 * norm, y + K1 * norm';
    assert x * norm' < y * norm by { CrossLess(x, y, norm', norm); }
    assert x * e < y * d;
    FractionLess(2.5 * idf, x, d, y, e);
  }

  lemma CrossLess(x: real, y: real, m: real, n: real)
    requires 0.0 < x <= y && 0.0 < m <= n && (x < y || m < n)
    ensures x * m < y * n
  {
    assert x * m <= x * n <= y * n;
    if x < y {
      assert x * n < y * n;
    } else {
      assert x * m < x * n;
    }
  }

  lemma FractionLess(c: real, x: real, d: real, y: real, e: real)
    requires c > 0.0 && d > 0.0 && e > 0.0 && x * e < y * d
    ensures c * x / d < c * y / e
  {
    var p, q := c * x / d, c * y / e;
    assert p * d == c * x && q * e == c * y;
    assert p * (d * e) == p * d * e == c * x * e == c * (x * e);
    assert q * (d * e) == q * e * d == c * y * d == c * (y * d);
    assert c * (x * e) < c * (y * d);
    LessByProduct(p, q, d * e);
  }

  lemma ContributionIs(ln: real -> real, st: Stats, qt: string, toks: seq<string>)
    requires Fits(st, toks) && LogLike(ln) && qt in toks
    ensures qt in st.df && 0 < st.df[qt] <= st.docs && 0 < st.total && Norm(|toks|, st.docs, st.total) >= 0.25
    ensures Idf(ln, st.docs, st.df[qt]) > 0.0
    ensures var norm := Norm(|toks|, st.docs, st.total);
      multiset(toks)[qt] as real + K1 * norm != 0.0
      && Contribution(ln, st, qt, toks) == TermScore(Idf(ln, st.docs, st.df[qt]), multiset(toks)[qt], norm)
  {
    assert |toks| > 0;
    NormPositive(|toks|, st.docs, st.total);
    IdfPositive(ln, st.docs, st.df[qt]);
    TermScorePositive(Idf(ln, st.docs, st.df[qt]), multiset(toks)[qt], Norm(|toks|, st.docs, st.total));
  }

  lemma ScoreOfOne(ln: real -> real, st: Stats, qt: string, toks: seq<string>)
    requires Fits(st, toks) && LogLike(ln)
    ensures Score(ln, st, [qt], toks) == Contribution(ln, st, qt, toks)
  {
    assert [qt][..0] == [];
  }

  /** Of two tokens occurring equally often in a unit, the one in fewer units scores higher. */
  lemma RarerScoresHigher(ln: real -> real, st: Stats, a: string, b: string, toks: seq<string>)
    requires Fits(st, toks) && LogLike(ln) && a in toks && b in toks
    requires multiset(toks)[a] == multiset(toks)[b] && st.df[a] < st.df[b]
    ensures Score(ln, st, [a], toks) > Score(ln, st, [b], toks)
  {
    hide Contribution, Score, Fits, LogLike, Idf, Norm, TermScore;
    ScoreOfOne(ln, st, a, toks);
    ScoreOfOne(ln, st, b, toks);
    ContributionIs(ln, st, a, toks);
    ContributionIs(ln, st, b, toks);
    IdfFalls(ln, st.docs, st.df[a], st.df[b]);
    TermScoreScales(Idf(ln, st.docs, st.df[b]), Idf(ln, st.docs, st.df[a]), multiset(toks)[a],
      Norm(|toks|, st.docs, st.total));
  }

  lemma TermScoreScales(idf: real, idf': real, tf: int, norm: real)
    requires 0.0 < idf < idf' && tf > 0 && norm >= 0.25
    ensures TermScore(idf, tf, norm) < TermScore(idf', tf, norm)
  {
    var x, d := tf as real * (K1 + 1.0), tf as real + K1 * norm;
    assert idf * x < idf' * x;
    FractionLess(1.0, idf * x, d, idf' * x, d);
  }

  /** Of two units, the shorter one with at least as many occurrences, or the one with more occurrences
      that is no longer, scores higher. */
  lemma DenserScoresHigher(ln: real -> real, st: Stats, qt: string, toks: seq<string>, toks': seq<string>)
    requires Fits(st, toks) && Fits(st, toks') && LogLike(ln) && qt in toks
    requires multiset(toks)[qt] <= multiset(toks')[qt] && |toks'| <= |toks|
    requires multiset(toks)[qt] < multiset(toks')[qt] || |toks'| < |toks|
    ensures Score(ln, st, [qt], toks) < Score(ln, st, [qt], toks')
  {
    assert qt in multiset(toks');
    hide Contribution, Score, Fits, LogLike, Idf, Norm, TermScore;
    ScoreOfOne(ln, st, qt, toks);
    ScoreOfOne(ln, st, qt, toks');
    ContributionIs(ln, st, qt, toks);
    ContributionIs(ln, st, qt, toks');
    NormRises(|toks'|, |toks|, st.docs, st.total);
    TermScoreMonotone(Idf(ln, st.docs, st.df[qt]), multiset(toks)[qt], multiset(toks')[qt],
      Norm(|toks|, st.docs, st.total), Norm(|toks'|, st.docs, st.total));
  }

  lemma NormRises(a: int, b: int, docs: int, total: int)
    requires 0 <= a <= b && 0 < docs && 0 < total
    ensures Norm(a, docs, total) <= Norm(b, docs, total)
    ensures a < b ==> Norm(a, docs, total) < Norm(b, docs, total)
  {
    var q := total as real / docs as real;
    RatioNonNegative(total as real, docs as real);
    var x, y := a as real / q, b as real / q;
    assert x * q == a as real && y * q == b as real;
    if a < b {
      LessByProduct(x, y, q);
    }
  }

  /** An answer is in order: higher scores first, equal scores by file, then by symbol. */
  lemma AnswerOrder(ln: real -> real, s: State, qtoks: seq<string>, limit: int, r: seq<Result>)
    requires Counted(s) && LogLike(ln) && Answers(ln, s, qtoks, limit, r)
    ensures limit > 0 ==> |r| <= limit
    ensures forall i, j :: 0 <= i < j < |r| ==>
      && r[i].score >= r[j].score
      && (r[i].score == r[j].score ==> r[i].unit.file == r[j].unit.file || Less(r[i].unit.file, r[j].unit.file))
      && (r[i].score == r[j].score && r[i].unit.file == r[j].unit.file ==>
            r[i].unit.symbol == r[j].unit.symbol || Less(r[i].unit.symbol, r[j].unit.symbol))
  {
    hide Less, Ranks, Counted, LogLike;
    var order, full :| Ranks(ln, s, qtoks, order, full) && r == Limited(full, limit);
    RanksSorted(ln, s, qtoks, order, full);
    forall i, j | 0 <= i < j < |r| ensures !Before(r[j], r[i]) {
      assert !Before(full[j], full[i]);
    }
    forall a, b ensures a == b || Less(a, b) || Less(b, a) {
      LessTrichotomy(a, b);
    }
  }

  lemma RanksSorted(ln: real -> real, s: State, qtoks: seq<string>, order: seq<int>, full: seq<Result>)
    requires Counted(s) && LogLike(ln) && Ranks(ln, s, qtoks, order, full)
    ensures SortedBy(full, Before)
  {}
}
