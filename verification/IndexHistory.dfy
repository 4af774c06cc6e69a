/** internal/search/index.go: what the index answers depends on what it holds, not on how it got there. */
module IndexHistory {
  import opened Text
  import opened Tokenize
  import opened IndexState
  import opened Ranking
  import opened SearchIndex

  // ---- equal contents, equal numbers of copies of every unit ---------------

  ghost function Copies(units: map<int, Unit>, u: Unit): set<int> {
    set id | id in units && units[id] == u
  }

  ghost function Listed(units: map<int, Unit>, ids: seq<int>, u: Unit): set<int> {
    set id | id in ids && id in units && units[id] == u
  }

  lemma {:induction false} CopiesInList(units: map<int, Unit>, ids: seq<int>, u: Unit)
    requires NoDup(ids) && forall k :: 0 <= k < |ids| ==> ids[k] in units
    ensures |Listed(units, ids, u)| == multiset(UnitsAt(units, ids))[u]
  {
    if ids != [] {
      var n := |ids| - 1;
      CopiesInList(units, ids[..n], u);
      ListedSnoc(units, ids[..n], ids[n], u);
      assert ids == ids[..n] + [ids[n]];
      assert UnitsAt(units, ids) == UnitsAt(units, ids[..n]) + [units[ids[n]]];
    }
  }

  lemma ListedSnoc(units: map<int, Unit>, ids: seq<int>, x: int, u: Unit)
    requires x !in ids && x in units
    ensures |Listed(units, ids + [x], u)| == |Listed(units, ids, u)| + if units[x] == u then 1 else 0
  {
    assert Listed(units, ids + [x], u) == Listed(units, ids, u) + if units[x] == u then {x} else {};
  }

  lemma CopiesFromContents(s: State, u: Unit)
    requires Filed(s)
    ensures |Copies(s.units, u)| == if u.file in Contents(s) then multiset(Contents(s)[u.file])[u] else 0
  {
    if u.file in s.fileUnits {
      var ids := s.fileUnits[u.file];
      FiledIds(s, u.file);
      CopiesInList(s.units, ids, u);
      CopiesAreFiled(s, u);
    } else {
      forall id ensures id !in Copies(s.units, u) {
        assert id in s.units ==> s.units[id].file in s.fileUnits;
      }
    }
  }

  lemma CopiesAreFiled(s: State, u: Unit)
    requires Filed(s) && u.file in s.fileUnits
    ensures Copies(s.units, u) == Listed(s.units, s.fileUnits[u.file], u)
  {
    forall id ensures id in Copies(s.units, u) <==> id in Listed(s.units, s.fileUnits[u.file], u) {
    }
  }

  ghost predicate SameUnits(a: map<int, Unit>, b: map<int, Unit>) {
    forall u :: |Copies(a, u)| == |Copies(b, u)|
  }

  lemma PairUp(a: map<int, Unit>, b: map<int, Unit>, x: int) returns (y: int)
    requires SameUnits(a, b) && x in a
    ensures y in b && b[y] == a[x]
    ensures SameUnits(a - {x}, b - {y})
  {
    var u := a[x];
    assert x in Copies(a, u);
    SubsetSize({x}, Copies(a, u));
    assert |Copies(b, u)| > 0;
    assert Copies(b, u) != {};
    NonEmpty(Copies(b, u));
    y :| y in Copies(b, u);
    forall v ensures |Copies(a - {x}, v)| == |Copies(b - {y}, v)| {
      assert Copies(a - {x}, v) == Copies(a, v) - if u == v then {x} else {};
      assert Copies(b - {y}, v) == Copies(b, v) - if u == v then {y} else {};
    }
  }

  lemma EmptyPair(a: map<int, Unit>, b: map<int, Unit>)
    requires SameUnits(a, b) && a == map[]
    ensures b == map[]
  {
    forall u ensures Copies(b, u) == {} {
      assert Copies(a, u) == {};
    }
    forall y ensures y !in b {
      assert y in b ==> y in Copies(b, b[y]);
    }
  }

  ghost function Having(a: map<int, Unit>, p: Unit -> bool): set<int> {
    set id | id in a && p(a[id])
  }

  lemma HavingRemove(a: map<int, Unit>, x: int, p: Unit -> bool)
    requires x in a
    ensures |Having(a, p)| == |Having(a - {x}, p)| + if p(a[x]) then 1 else 0
  {
    assert Having(a, p) == Having(a - {x}, p) + if p(a[x]) then {x} else {};
  }

  /** Any property of units holds of equally many ids. */
  lemma {:induction false} SameCount(a: map<int, Unit>, b: map<int, Unit>, p: Unit -> bool)
    requires SameUnits(a, b)
    ensures |Having(a, p)| == |Having(b, p)|
    decreases |a|
  {
    if a == map[] {
      EmptyPair(a, b);
    } else {
      NonEmpty(a.Keys);
      var x :| x in a;
      var y := PairUp(a, b, x);
      SameCount(a - {x}, b - {y}, p);
      HavingRemove(a, x, p);
      HavingRemove(b, y, p);
    }
  }

  ghost predicate TokenMap(cc: CharClass, a: map<int, Unit>, t: map<int, seq<string>>) {
    t.Keys == a.Keys && forall id :: id in a ==> t[id] == UnitTokens(cc, a[id])
  }

  lemma {:induction false} SameLength(cc: CharClass, a: map<int, Unit>, b: map<int, Unit>,
      ta: map<int, seq<string>>, tb: map<int, seq<string>>)
    requires SameUnits(a, b) && TokenMap(cc, a, ta) && TokenMap(cc, b, tb)
    ensures LengthSum(ta) == LengthSum(tb)
    decreases |a|
  {
    hide UnitTokens;
    if a == map[] {
      EmptyPair(a, b);
      assert ta == map[] && tb == map[];
    } else {
      NonEmpty(a.Keys);
      var x :| x in a;
      var y := PairUp(a, b, x);
      SameLength(cc, a - {x}, b - {y}, ta - {x}, tb - {y});
      LengthSumRemove(ta, x);
      LengthSumRemove(tb, y);
    }
  }

  lemma SameContentsSameUnits(a: State, b: State)
    requires Filed(a) && Filed(b) && Contents(a) == Contents(b)
    ensures SameUnits(a.units, b.units)
  {
    forall u ensures |Copies(a.units, u)| == |Copies(b.units, u)| {
      CopiesFromContents(a, u);
      CopiesFromContents(b, u);
    }
  }

  lemma DocsHaving(cc: CharClass, s: State, t: string)
    requires Counted(s) && Tokenised(cc, s)
    ensures Docs(s.tokens, t) == Having(s.units, u => t in UnitTokens(cc, u))
  {
    hide UnitTokens;
    var p: Unit -> bool := u => t in UnitTokens(cc, u);
    forall id ensures id in Docs(s.tokens, t) <==> id in Having(s.units, p) {
      assert id in s.units <==> id in s.tokens;
      if id in s.units {
        assert s.tokens[id] == UnitTokens(cc, s.units[id]);
      }
    }
  }

  lemma UnitsHaving(s: State)
    requires Counted(s)
    ensures s.tokens.Keys == Having(s.units, u => true)
  {}

  /** Equal contents give equal document frequencies and totals. */
  lemma SameStats(cc: CharClass, a: State, b: State)
    requires Synced(cc, a) && Synced(cc, b) && SameUnits(a.units, b.units)
    ensures StatsOf(a) == StatsOf(b)
  {
    hide UnitTokens;
    SameLength(cc, a.units, b.units, a.tokens, b.tokens);
    SameCount(a.units, b.units, u => true);
    UnitsHaving(a);
    UnitsHaving(b);
    assert |a.tokens| == |a.tokens.Keys| && |b.tokens| == |b.tokens.Keys|;
    forall t ensures t in a.df <==> t in b.df
             ensures t in a.df ==> a.df[t] == b.df[t] {
      SameDf(cc, a, b, t);
    }
    assert a.df == b.df;
  }

  lemma SameDf(cc: CharClass, a: State, b: State, t: string)
    requires Synced(cc, a) && Synced(cc, b) && SameUnits(a.units, b.units)
    ensures t in a.df <==> t in b.df
    ensures t in a.df ==> a.df[t] == b.df[t]
  {
    hide UnitTokens, Tokenised, Filed, Having;
    DocsHaving(cc, a, t);
    DocsHaving(cc, b, t);
    SameCount(a.units, b.units, u => t in UnitTokens(cc, u));
    assert DfIs(a.df, t, |Docs(a.tokens, t)|) && DfIs(b.df, t, |Docs(b.tokens, t)|);
  }

  // ---- equal bags of results ----------------------------------------------

  ghost function Giving(ln: real -> real, s: State, qtoks: seq<string>, ids: seq<int>, x: Result): set<int>
    requires Counted(s) && LogLike(ln)
  {
    set id | id in ids && id in s.units && ResultOf(ln, s, qtoks, id) == x
  }

  lemma GivingSnoc(ln: real -> real, s: State, qtoks: seq<string>, ids: seq<int>, last: int, x: Result)
    requires Counted(s) && LogLike(ln) && last !in ids && last in s.units
    ensures |Giving(ln, s, qtoks, ids + [last], x)|
         == |Giving(ln, s, qtoks, ids, x)| + if ResultOf(ln, s, qtoks, last) == x then 1 else 0
  {
    hide Counted, LogLike, ResultOf;
    assert Giving(ln, s, qtoks, ids + [last], x)
        == Giving(ln, s, qtoks, ids, x) + if ResultOf(ln, s, qtoks, last) == x then {last} else {};
  }

  /** A result occurs in the collected list as often as there are ids giving it. */
  lemma {:induction false} CountResults(ln: real -> real, s: State, qtoks: seq<string>, ids: seq<int>, x: Result)
    requires Counted(s) && LogLike(ln) && NoDup(ids) && forall id :: id in ids ==> id in s.units
    ensures multiset(ResultsOf(ln, s, qtoks, ids))[x] == |Giving(ln, s, qtoks, ids, x)|
  {
    hide Counted, LogLike, ResultOf;
    if ids != [] {
      var n := |ids| - 1;
      CountResults(ln, s, qtoks, ids[..n], x);
      GivingSnoc(ln, s, qtoks, ids[..n], ids[n], x);
      assert ids == ids[..n] + [ids[n]];
    }
  }

  /** The hits whose result is x. */
  ghost function HitsGiving(ln: real -> real, s: State, qtoks: seq<string>, x: Result): set<int>
    requires Counted(s) && LogLike(ln)
  {
    set id | id in s.units && Hit(s, qtoks, id) && ResultOf(ln, s, qtoks, id) == x
  }

  /** A full ranking holds each result exactly as often as there are hits giving it. */
  lemma RankingExact(ln: real -> real, s: State, qtoks: seq<string>, order: seq<int>, full: seq<Result>, x: Result)
    requires Counted(s) && LogLike(ln) && Ranks(ln, s, qtoks, order, full)
    ensures multiset(full)[x] == |HitsGiving(ln, s, qtoks, x)|
  {
    hide Counted, LogLike, ResultOf;
    CountResults(ln, s, qtoks, order, x);
    assert HitsGiving(ln, s, qtoks, x) == Giving(ln, s, qtoks, order, x);
  }

  lemma SameHits(cc: CharClass, ln: real -> real, a: State, b: State, qtoks: seq<string>, x: Result)
    requires Synced(cc, a) && Synced(cc, b) && LogLike(ln)
    requires SameUnits(a.units, b.units) && StatsOf(a) == StatsOf(b)
    ensures |HitsGiving(ln, a, qtoks, x)| == |HitsGiving(ln, b, qtoks, x)|
  {
    var toks := UnitTokens(cc, x.unit);
    forall s | s == a || s == b
      ensures HitsGiving(ln, s, qtoks, x)
           == if Shares(qtoks, toks) && Fits(StatsOf(a), toks) && Score(ln, StatsOf(a), qtoks, toks) == x.score
              then Copies(s.units, x.unit) else {}
    {
      HitsOfUnit(cc, ln, s, qtoks, x);
    }
  }

  lemma HitsOfUnit(cc: CharClass, ln: real -> real, s: State, qtoks: seq<string>, x: Result)
    requires Synced(cc, s) && LogLike(ln)
    ensures var toks := UnitTokens(cc, x.unit);
      HitsGiving(ln, s, qtoks, x)
        == if Shares(qtoks, toks) && Fits(StatsOf(s), toks) && Score(ln, StatsOf(s), qtoks, toks) == x.score
           then Copies(s.units, x.unit) else {}
  {
    hide UnitTokens, Shares, Fits, Score, LogLike, Filed;
    var toks := UnitTokens(cc, x.unit);
    forall id | id in s.units && s.units[id] == x.unit
      ensures s.tokens[id] == toks && Fits(StatsOf(s), toks)
    {
      LiveFits(s, id);
    }
  }

  lemma SameKeySequence(full: seq<Result>, full': seq<Result>)
    requires multiset(full) == multiset(full') && SortedBy(full, Before) && SortedBy(full', Before)
    ensures Keys(full) == Keys(full')
  {
    KeyBeforeTotal();
    MappedBag(KeyOf, full, full');
    SortedUnique(Keys(full), Keys(full'), KeyBefore);
  }

  /** Two indexes with equal contents, however reached, answer every query alike: the same
      sequence of (score, file, symbol), whatever the limit. */
  lemma HistoryIndependence(cc: CharClass, ln: real -> real, a: State, b: State,
      query: string, limit: int, ra: seq<Result>, rb: seq<Result>)
    requires Synced(cc, a) && Synced(cc, b) && LogLike(ln)
    requires Contents(a) == Contents(b)
    requires Answers(ln, a, TokensOf(cc, query), limit, ra)
    requires Answers(ln, b, TokensOf(cc, query), limit, rb)
    ensures Keys(ra) == Keys(rb)
  {
    hide Counted, Tokenised, Filed, TokensOf, LogLike, Contents;
    var qtoks := TokensOf(cc, query);
    var orderA, fullA :| Ranks(ln, a, qtoks, orderA, fullA) && ra == Limited(fullA, limit);
    var orderB, fullB :| Ranks(ln, b, qtoks, orderB, fullB) && rb == Limited(fullB, limit);
    SameContentsSameUnits(a, b);
    SameBag(cc, ln, a, b, qtoks, orderA, orderB, fullA, fullB);
    SameKeySequence(fullA, fullB);
    KeysLimited(fullA, limit);
    KeysLimited(fullB, limit);
  }

  lemma SameBag(cc: CharClass, ln: real -> real, a: State, b: State, qtoks: seq<string>,
      orderA: seq<int>, orderB: seq<int>, fullA: seq<Result>, fullB: seq<Result>)
    requires Synced(cc, a) && Synced(cc, b) && LogLike(ln) && SameUnits(a.units, b.units)
    requires Ranks(ln, a, qtoks, orderA, fullA) && Ranks(ln, b, qtoks, orderB, fullB)
    ensures multiset(fullA) == multiset(fullB)
  {
    hide Counted, Tokenised, Filed, LogLike, Ranks;
    SameStats(cc, a, b);
    forall x ensures multiset(fullA)[x] == multiset(fullB)[x] {
      RankingExact(ln, a, qtoks, orderA, fullA, x);
      RankingExact(ln, b, qtoks, orderB, fullB, x);
      SameHits(cc, ln, a, b, qtoks, x);
    }
  }

  lemma KeysLimited(full: seq<Result>, limit: int)
    ensures Keys(Limited(full, limit)) == Limited(Keys(full), limit)
  {}

  /** Without a limit an answer lists every live unit sharing a token with the query exactly once
      and nothing else, best first, with strictly positive scores. */
  lemma UnlimitedAnswerExact(cc: CharClass, ln: real -> real, s: State, query: string, limit: int, r: seq<Result>)
    requires Synced(cc, s) && LogLike(ln) && limit <= 0
    requires Answers(ln, s, TokensOf(cc, query), limit, r)
    ensures forall x :: multiset(r)[x] == |HitsGiving(ln, s, TokensOf(cc, query), x)|
    ensures SortedBy(r, Before)
    ensures forall k :: 0 <= k < |r| ==> r[k].score > 0.0
  {
    hide Counted, Tokenised, Filed, TokensOf, LogLike;
    var qtoks := TokensOf(cc, query);
    var order, full :| Ranks(ln, s, qtoks, order, full) && r == Limited(full, limit);
    forall x ensures multiset(r)[x] == |HitsGiving(ln, s, qtoks, x)| {
      RankingExact(ln, s, qtoks, order, full, x);
    }
    forall k | 0 <= k < |r| ensures r[k].score > 0.0 {
      assert r[k] in multiset(r);
      RankingExact(ln, s, qtoks, order, full, r[k]);
      var giving := HitsGiving(ln, s, qtoks, r[k]);
      NonEmpty(giving);
      var id :| id in giving;
    }
  }

  // ---- whole histories ----------------------------------------------------

  /** The states of one run: an empty index, then one contract-abiding step per change. */
  ghost predicate Run(cc: CharClass, states: seq<State>, changes: seq<Change>) {
    && |states| == |changes| + 1
    && (forall k :: 0 <= k < |states| ==> Synced(cc, states[k]))
    && Contents(states[0]) == map[]
    && (forall k :: 0 <= k < |changes| ==> Contents(states[k + 1]) == Apply(Contents(states[k]), changes[k]))
  }

  lemma RunExtend(cc: CharClass, states: seq<State>, changes: seq<Change>, k: nat, s: State)
    requires k < |changes| && Run(cc, states, changes[..k])
    requires Synced(cc, s) && Contents(s) == Apply(Contents(states[k]), changes[k])
    ensures Run(cc, states + [s], changes[..k + 1])
  {
    hide Synced, Contents, Apply;
    var more := states + [s];
    forall j | 0 <= j < k + 1 ensures Contents(more[j + 1]) == Apply(Contents(more[j]), changes[..k + 1][j]) {
      assert changes[..k + 1][j] == changes[j];
      assert j < k ==> changes[..k][j] == changes[j];
    }
  }

  /** A new index put through any list of changes by its own methods goes through a run, and ends in
      the run's last state. */
  method Replay(cc: CharClass, changes: seq<Change>) returns (idx: Index, ghost states: seq<State>)
    ensures fresh(idx) && idx.cc == cc && idx.Valid()
    ensures Run(cc, states, changes) && idx.Fields() == states[|changes|]
  {
    hide Synced, Contents, Apply;
    idx := new Index(cc);
    states := [idx.Fields()];
    for k := 0 to |changes|
      invariant fresh(idx) && idx.cc == cc && idx.Valid()
      invariant Run(cc, states, changes[..k]) && idx.Fields() == states[k]
    {
      match changes[k] {
        case Added(rel, isGo, extracted) => idx.AddFile(rel, isGo, extracted);
        case Removed(rel) => idx.RemoveFile(rel);
      }
      RunExtend(cc, states, changes, k, idx.Fields());
      states := states + [idx.Fields()];
    }
    assert changes[..|changes|] == changes;
  }

  lemma {:induction false} RunContents(cc: CharClass, states: seq<State>, changes: seq<Change>)
    requires Run(cc, states, changes)
    ensures Contents(states[|changes|]) == ContentsAfter(map[], changes)
  {
    hide Synced, Contents, Apply;
    var n := |changes|;
    if n > 0 {
      forall k | 0 <= k < n ensures states[..n][k] == states[k] {}
      RunContents(cc, states[..n], changes[..n - 1]);
      assert states[..n][n - 1] == states[n - 1];
    }
  }

  /** The last change naming f that has an effect on it. */
  function LastAbout(changes: seq<Change>, f: string): Option<Change> {
    if changes == [] then None
    else
      var ch := changes[|changes| - 1];
      if ch.rel == f && (ch.Added? ==> ch.isGo) then Some(ch) else LastAbout(changes[..|changes| - 1], f)
  }

  /** What the last change about a file leaves there. */
  function FileAfter(last: Option<Change>): seq<Unit> {
    if last.Some? && last.value.Added? && last.value.extracted.Some?
    then Tagged(last.value.rel, last.value.extracted.value) else []
  }

  /** However long the history, a file holds what its last change put there; files left with
      no units are not listed. */
  lemma {:induction false} LatestChangeWins(changes: seq<Change>, f: string)
    ensures var c := ContentsAfter(map[], changes);
      && (f in c <==> FileAfter(LastAbout(changes, f)) != [])
      && (f in c ==> c[f] == FileAfter(LastAbout(changes, f)))
  {
    if changes != [] {
      var n := |changes| - 1;
      LatestChangeWins(changes[..n], f);
      var ch := changes[n];
      if ch.Added? && ch.extracted.Some? {
        TaggedEmpty(ch.rel, ch.extracted.value);
        assert [] + Tagged(ch.rel, ch.extracted.value) == Tagged(ch.rel, ch.extracted.value);
      }
    }
  }

  lemma TaggedEmpty(rel: string, us: seq<Unit>)
    ensures Tagged(rel, us) == [] <==> us == []
  {}

  /** Histories whose last changes agree file by file leave the same contents. */
  lemma SameEnds(ca: seq<Change>, cb: seq<Change>)
    requires forall f :: FileAfter(LastAbout(ca, f)) == FileAfter(LastAbout(cb, f))
    ensures ContentsAfter(map[], ca) == ContentsAfter(map[], cb)
  {
    hide FileAfter, LastAbout;
    var a, b := ContentsAfter(map[], ca), ContentsAfter(map[], cb);
    forall f ensures f in a <==> f in b
             ensures f in a ==> a[f] == b[f] {
      LatestChangeWins(ca, f);
      LatestChangeWins(cb, f);
    }
    assert a == b;
  }

  /** Two runs whose last changes agree file by file (a fresh build is one of them) end in indexes
      that answer every query alike. */
  lemma HistoriesWithSameEnd(cc: CharClass, ln: real -> real, sa: seq<State>, ca: seq<Change>,
      sb: seq<State>, cb: seq<Change>, query: string, limit: int, ra: seq<Result>, rb: seq<Result>)
    requires Run(cc, sa, ca) && Run(cc, sb, cb) && LogLike(ln)
    requires forall f :: FileAfter(LastAbout(ca, f)) == FileAfter(LastAbout(cb, f))
    requires Answers(ln, sa[|ca|], TokensOf(cc, query), limit, ra)
    requires Answers(ln, sb[|cb|], TokensOf(cc, query), limit, rb)
    ensures Keys(ra) == Keys(rb)
  {
    hide Answers, TokensOf, LogLike, Contents, Apply, FileAfter, LastAbout, Counted, Filed, Tokenised;
    RunContents(cc, sa, ca);
    RunContents(cc, sb, cb);
    SameEnds(ca, cb);
    HistoryIndependence(cc, ln, sa[|ca|], sb[|cb|], query, limit, ra, rb);
  }

  /** A fresh build is the history that adds each walked file once. */
  function BuildChanges(files: seq<(string, Option<seq<Unit>>)>): seq<Change> {
    if files == [] then []
    else BuildChanges(files[..|files| - 1]) + [Added(files[|files| - 1].0, true, files[|files| - 1].1)]
  }

  lemma {:induction false} BuildIsHistory(files: seq<(string, Option<seq<Unit>>)>)
    requires forall i, j :: 0 <= i < j < |files| ==> files[i].0 != files[j].0
    ensures ContentsAfter(map[], BuildChanges(files)) == Built(files)
  {
    if files != [] {
      var n := |files| - 1;
      BuildIsHistory(files[..n]);
      BuiltFiles(files[..n], files[n].0);
      BuiltStep(Built(files[..n]), files[n].0, files[n].1);
      BuildChangesLength(files[..n]);
      hide Apply, Built, WithUnits;
      assert BuildChanges(files)[..n] == BuildChanges(files[..n]);
      BuiltSnoc(files);
    }
  }

  lemma BuiltSnoc(files: seq<(string, Option<seq<Unit>>)>)
    requires files != []
    ensures var (rel, extracted) := files[|files| - 1];
      Built(files) == BuiltNext(Built(files[..|files| - 1]), rel, extracted)
  {}

  function BuiltNext(c: map<string, seq<Unit>>, rel: string, extracted: Option<seq<Unit>>): map<string, seq<Unit>> {
    if extracted.None? then c else WithUnits(c, rel, extracted.value)
  }

  /** A file walked for the first time is added as AddFile would add it. */
  lemma BuiltStep(c: map<string, seq<Unit>>, rel: string, extracted: Option<seq<Unit>>)
    requires rel !in c
    ensures Apply(c, Added(rel, true, extracted)) == BuiltNext(c, rel, extracted)
  {
    assert c - {rel} == c;
  }

  /** A built index answers every query like any run, such as a replay, that ends with the same files. */
  lemma BuildAnswersLikeRun(cc: CharClass, ln: real -> real, built: State, files: seq<(string, Option<seq<Unit>>)>,
      states: seq<State>, changes: seq<Change>, query: string, limit: int, ra: seq<Result>, rb: seq<Result>)
    requires forall i, j :: 0 <= i < j < |files| ==> files[i].0 != files[j].0
    requires Synced(cc, built) && Contents(built) == Built(files)
    requires Run(cc, states, changes) && LogLike(ln)
    requires forall f :: FileAfter(LastAbout(BuildChanges(files), f)) == FileAfter(LastAbout(changes, f))
    requires Answers(ln, built, TokensOf(cc, query), limit, ra)
    requires Answers(ln, states[|changes|], TokensOf(cc, query), limit, rb)
    ensures Keys(ra) == Keys(rb)
  {
    hide Answers, TokensOf, LogLike, Contents, Apply, FileAfter, LastAbout, Counted, Filed, Tokenised;
    BuildIsHistory(files);
    RunContents(cc, states, changes);
    SameEnds(BuildChanges(files), changes);
    HistoryIndependence(cc, ln, built, states[|changes|], query, limit, ra, rb);
  }

  /** A build holds only files it walked. */
  lemma {:induction false} BuiltFiles(files: seq<(string, Option<seq<Unit>>)>, f: string)
    ensures f in Built(files) ==> exists k :: 0 <= k < |files| && files[k].0 == f
  {
    if files != [] {
      var n := |files| - 1;
      BuiltFiles(files[..n], f);
      if f in Built(files[..n]) {
        var k :| 0 <= k < n && files[..n][k].0 == f;
        assert files[k].0 == f;
      } else if f in Built(files) {
        assert files[n].0 == f;
      }
    }
  }

  lemma {:induction false} BuildChangesLength(files: seq<(string, Option<seq<Unit>>)>)
    ensures |BuildChanges(files)| == |files|
  {
    if files != [] {
      BuildChangesLength(files[..|files| - 1]);
    }
  }
}
