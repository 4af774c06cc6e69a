/** internal/search/index.go: the mutable index. */
module SearchIndex {
  import opened Text
  import opened Tokenize
  import opened IndexState
  import opened Ranking

  function Tagged(rel: string, units: seq<Unit>): seq<Unit> {
    if units == [] then [] else Tagged(rel, units[..|units| - 1]) + [units[|units| - 1].(file := rel)]
  }

  /** Contents after units are added to rel; a file with no units is not listed. */
  function WithUnits(c: map<string, seq<Unit>>, rel: string, units: seq<Unit>): map<string, seq<Unit>> {
    if units == [] then c else c[rel := (if rel in c then c[rel] else []) + Tagged(rel, units)]
  }

  /** One file event: a re-extraction (None when the source does not parse) or a removal. */
  datatype Change =
    | Added(rel: string, isGo: bool, extracted: Option<seq<Unit>>)
    | Removed(rel: string)

  function Apply(c: map<string, seq<Unit>>, ch: Change): map<string, seq<Unit>> {
    match ch
    case Removed(rel) => c - {rel}
    case Added(rel, isGo, extracted) =>
      if !isGo then c
      else if extracted.None? then c - {rel}
      else WithUnits(c - {rel}, rel, extracted.value)
  }

  function ContentsAfter(c: map<string, seq<Unit>>, changes: seq<Change>): map<string, seq<Unit>> {
    if changes == [] then c
    else Apply(ContentsAfter(c, changes[..|changes| - 1]), changes[|changes| - 1])
  }

  /** Contents after Build has walked files; unparsable files are skipped. */
  function Built(files: seq<(string, Option<seq<Unit>>)>): map<string, seq<Unit>> {
    if files == [] then map[]
    else
      var (rel, extracted) := files[|files| - 1];
      var before := Built(files[..|files| - 1]);
      if extracted.None? then before else WithUnits(before, rel, extracted.value)
  }

  /** The distinct tokens of one unit, in first-seen order. */
  method Unique(s: seq<string>) returns (out: seq<string>)
    ensures out == FirstSeen(s)
  {
    if |s| == 0 {
      return [];
    }
    var seen: set<string> := {};
    out := [];
    for k := 0 to |s|
      invariant out == FirstSeen(s[..k])
      invariant forall v :: v in seen <==> v in out
    {
      assert s[..k + 1][..k] == s[..k];
      if s[k] !in seen {
        seen := seen + {s[k]};
        out := out + [s[k]];
      }
    }
    assert s[..|s|] == s;
  }

  method CountToken(toks: seq<string>, t: string) returns (n: nat)
    ensures n == multiset(toks)[t]
  {
    n := 0;
    for k := 0 to |toks|
      invariant n == multiset(toks[..k])[t]
    {
      assert toks[..k + 1] == toks[..k] + [toks[k]];
      if toks[k] == t {
        n := n + 1;
      }
    }
    assert toks[..|toks|] == toks;
  }

  method TokensOfUnit(cc: CharClass, u: Unit) returns (toks: seq<string>)
    ensures toks == UnitTokens(cc, u)
  {
    toks := Tokenize.Tokenize(cc, u.symbol);
    var more := Tokenize.Tokenize(cc, u.signature);
    toks := toks + more;
    more := Tokenize.Tokenize(cc, u.doc);
    toks := toks + more;
  }

  class Index {
    const cc: CharClass
    var units: map<int, Unit>
    var tokens: map<int, seq<string>>
    var lengths: map<int, int>
    var df: map<string, int>
    var fileUnits: map<string, seq<int>>
    var nextID: int
    var totalLen: int
    var totalDocs: int

    function Fields(): State
      reads this
    {
      State(units, tokens, lengths, df, fileUnits, nextID, totalLen, totalDocs)
    }

    ghost predicate Valid()
      reads this
    {
      Synced(cc, Fields())
    }

    constructor (cc: CharClass)
      ensures Valid() && this.cc == cc
      ensures Contents(Fields()) == map[]
    {
      this.cc := cc;
      units, tokens, lengths, df, fileUnits := map[], map[], map[], map[], map[];
      nextID, totalLen, totalDocs := 0, 0, 0;
      new;
      forall t ensures DfIs(df, t, |Docs(tokens, t)|) {
        assert Docs(tokens, t) == {};
      }
    }

    /** df[t]++ for every distinct token of one unit. */
    method CountIn(toks: seq<string>)
      requires forall t :: DfIs(df, t, |Docs(tokens, t)|)
      modifies this`df
      ensures forall t :: DfIs(df, t, |Docs(tokens, t)| + if t in toks then 1 else 0)
    {
      var distinct := Unique(toks);
      FirstSeenDistinct(toks);
      for k := 0 to |distinct|
        invariant forall t :: DfIs(df, t, |Docs(tokens, t)| + if t in distinct[..k] then 1 else 0)
      {
        var t := distinct[k];
        assert t !in distinct[..k];
        assert forall x :: x in distinct[..k + 1] <==> x in distinct[..k] || x == t;
        df := df[t := (if t in df then df[t] else 0) + 1];
      }
      assert distinct[..|distinct|] == distinct;
    }

    /** df[t]--, dropping the key at zero, for every distinct token of live unit id. */
    method CountOut(id: int)
      requires id in tokens
      requires forall t :: DfIs(df, t, |Docs(tokens, t)|)
      modifies this`df
      ensures forall t :: DfIs(df, t, |Docs(tokens, t)| - if t in tokens[id] then 1 else 0)
    {
      var distinct := Unique(tokens[id]);
      FirstSeenDistinct(tokens[id]);
      for k := 0 to |distinct|
        invariant forall t :: DfIs(df, t, |Docs(tokens, t)| - if t in distinct[..k] then 1 else 0)
      {
        var t := distinct[k];
        assert t !in distinct[..k];
        assert forall x :: x in distinct[..k + 1] <==> x in distinct[..k] || x == t;
        assert |Docs(tokens, t)| > 0 by { DocsBound(tokens, t); }
        df := df[t := (if t in df then df[t] else 0) - 1];
        if df[t] <= 0 {
          df := df - {t};
        }
      }
      assert distinct[..|distinct|] == distinct;
    }

    method AddUnit(rel: string, unit: Unit)
      requires Valid()
      modifies this
      ensures Valid()
      ensures Contents(Fields()) == Extended(old(Contents(Fields())), rel, unit.(file := rel))
    {
      hide Synced, DfIs, Docs, UnitTokens, Contents;
      ghost var before := Fields();
      SyncedDf(cc, before);
      var u := unit.(file := rel);
      var id := nextID;
      var toks := TokensOfUnit(cc, u);
      CountIn(toks);
      assert forall t :: DfIs(df, t, |Docs(before.tokens, t)| + if t in toks then 1 else 0);
      nextID := nextID + 1;
      units := units[id := u];
      tokens := tokens[id := toks];
      lengths := lengths[id := |toks|];
      totalLen := totalLen + |toks|;
      totalDocs := totalDocs + 1;
      fileUnits := fileUnits[rel := (if rel in fileUnits then fileUnits[rel] else []) + [id]];
      ghost var after := Fields();
      assert after.fileUnits == Extended(before.fileUnits, u.file, before.nextID);
      assert after.df == df;
      SyncedAdd(cc, before, after, u, toks);
    }

    method AddUnitsLocked(rel: string, us: seq<Unit>)
      requires Valid()
      modifies this
      ensures Valid()
      ensures Contents(Fields()) == WithUnits(old(Contents(Fields())), rel, us)
    {
      ghost var c := Contents(Fields());
      for k := 0 to |us|
        invariant Valid()
        invariant Contents(Fields()) == WithUnits(c, rel, us[..k])
      {
        AddUnit(rel, us[k]);
        WithUnitsSnoc(c, rel, us, k);
      }
      assert us[..|us|] == us;
    }

    /** The body of removeFileLocked's loop: everything but fileUnits forgets unit id. */
    method DropUnit(id: int)
      requires Counted(Fields()) && Tokenised(cc, Fields()) && id in units
      modifies this`units, this`tokens, this`lengths, this`df, this`totalLen, this`totalDocs
      ensures Counted(Fields()) && Tokenised(cc, Fields())
      ensures units == old(units) - {id}
    {
      ghost var before := Fields();
      hide Tokenised;
      CountOut(id);
      assert tokens == before.tokens;
      assert forall t :: DfIs(df, t, |Docs(before.tokens, t)| - if t in before.tokens[id] then 1 else 0);
      totalLen := totalLen - lengths[id];
      totalDocs := totalDocs - 1;
      units := units - {id};
      tokens := tokens - {id};
      lengths := lengths - {id};
      ghost var after := Fields();
      assert after.df == df;
      CountedRemove(cc, before, after, id);
    }

    method RemoveFileLocked(rel: string)
      requires Valid()
      modifies this
      ensures Valid()
      ensures Contents(Fields()) == old(Contents(Fields())) - {rel}
    {
      hide Counted, Tokenised;
      if rel !in fileUnits {
        assert rel !in Contents(Fields());
        return;
      }
      ghost var before := Fields();
      var ids := fileUnits[rel];
      FiledIds(before, rel);
      for k := 0 to |ids|
        invariant Counted(Fields()) && Tokenised(cc, Fields())
        invariant fileUnits == before.fileUnits
        invariant units == before.units - Ids(ids[..k])
      {
        IdsSnoc(ids, k);
        DropUnit(ids[k]);
      }
      assert ids[..|ids|] == ids;
      ghost var emptied := Fields();
      fileUnits := fileUnits - {rel};
      ghost var after := Fields();
      CountedIgnoresFiles(cc, emptied, after);
      SyncedRemove(cc, before, after, rel);
    }

    method RemoveFile(rel: string)
      requires Valid()
      modifies this
      ensures Valid()
      ensures Contents(Fields()) == Apply(old(Contents(Fields())), Removed(rel))
    {
      RemoveFileLocked(rel);
    }

    /** AddFile after path normalisation and extraction. */
    method AddFile(rel: string, isGo: bool, extracted: Option<seq<Unit>>)
      requires Valid()
      modifies this
      ensures Valid()
      ensures Contents(Fields()) == Apply(old(Contents(Fields())), Added(rel, isGo, extracted))
    {
      if !isGo {
        return;
      }
      if extracted.None? {
        RemoveFile(rel);
        return;
      }
      RemoveFileLocked(rel);
      AddUnitsLocked(rel, extracted.value);
    }

    /** One query token: its contribution added to every unit that contains it. */
    method ScoreToken(ln: real -> real, ghost qtoks: seq<string>, k: nat, qt: string, before: map<int, real>)
      returns (scores: map<int, real>)
      requires Valid() && LogLike(ln) && k < |qtoks| && qt == qtoks[k]
      requires before.Keys <= tokens.Keys
      requires forall id :: id in tokens ==> Scored(ln, Fields(), qtoks[..k], before, id)
      ensures scores.Keys <= tokens.Keys
      ensures forall id :: id in tokens ==> Scored(ln, Fields(), qtoks[..k + 1], scores, id)
    {
      hide Counted, Tokenised, Filed, LiveScore, Contribution, Fits, Idf, Norm, TermScore, Shares, LogLike;
      scores := before;
      var n := if qt in df then df[qt] else 0;
      if n == 0 {
        forall id | id in tokens ensures Scored(ln, Fields(), qtoks[..k + 1], scores, id) {
          if qt in tokens[id] {
            StepNumbers(ln, Fields(), qt, id);
          }
          ScoreStep(ln, Fields(), qtoks, k, id);
        }
        return;
      }
      var todo := tokens.Keys;
      while todo != {}
        invariant todo <= tokens.Keys
        invariant scores.Keys <= tokens.Keys
        invariant forall id ::
          id in tokens ==> Scored(ln, Fields(), if id in todo then qtoks[..k] else qtoks[..k + 1], scores, id)
        decreases |todo|
      {
        var id :| id in todo;
        todo := todo - {id};
        ScoreStep(ln, Fields(), qtoks, k, id);
        var tf := CountToken(tokens[id], qt);
        if tf != 0 {
          assert qt in tokens[id];
          StepNumbers(ln, Fields(), qt, id);
          var norm := Norm(lengths[id], totalDocs, totalLen);
          var soFar := if id in scores then scores[id] else 0.0;
          scores := scores[id := soFar + TermScore(Idf(ln, totalDocs, n), tf, norm)];
        }
      }
    }

    method Search(ln: real -> real, query: string, limit: int) returns (r: seq<Result>)
      requires Valid() && LogLike(ln)
      ensures Answers(ln, Fields(), TokensOf(cc, query), limit, r)
    {
      hide Counted, Tokenised, Filed, LiveScore, Shares, LogLike, TokensOf;
      var qtoks := Tokenize.Tokenize(cc, query);
      if |qtoks| == 0 || totalDocs == 0 {
        NoHits(ln, cc, Fields(), qtoks, limit);
        return [];
      }
      var scores: map<int, real> := map[];
      LiveKeys(Fields());
      for k := 0 to |qtoks|
        invariant scores.Keys <= tokens.Keys
        invariant forall id :: id in tokens ==> Scored(ln, Fields(), qtoks[..k], scores, id)
      {
        scores := ScoreToken(ln, qtoks, k, qtoks[k], scores);
      }
      assert qtoks[..|qtoks|] == qtoks;
      var results: seq<Result> := [];
      ghost var order: seq<int> := [];
      assert scores.Keys <= units.Keys;
      var todo := scores.Keys;
      while todo != {}
        invariant todo <= scores.Keys
        invariant forall id :: id in order ==> id in units
        invariant NoDup(order) && forall id :: id in order <==> id in scores && id !in todo
        invariant results == ResultsOf(ln, Fields(), qtoks, order)
        decreases |todo|
      {
        assert exists id :: id in todo by { NonEmpty(todo); }
        var id :| id in todo;
        todo := todo - {id};
        assert Scored(ln, Fields(), qtoks, scores, id);
        results := results + [Result(units[id], scores[id])];
        assert (order + [id])[..|order|] == order;
        order := order + [id];
      }
      forall id ensures id in order <==> Hit(Fields(), qtoks, id) {
        if id in tokens {
          assert Scored(ln, Fields(), qtoks, scores, id);
        }
      }
      BeforeWeak();
      var full := SortSlice(results, Before);
      assert Ranks(ln, Fields(), qtoks, order, full);
      r := full;
      if limit > 0 && |r| > limit {
        r := r[..limit];
      }
    }
  }

  method Build(cc: CharClass, files: seq<(string, Option<seq<Unit>>)>) returns (idx: Index)
    ensures fresh(idx) && idx.cc == cc && idx.Valid()
    ensures Contents(idx.Fields()) == Built(files)
  {
    idx := new Index(cc);
    for k := 0 to |files|
      invariant fresh(idx) && idx.cc == cc && idx.Valid()
      invariant Contents(idx.Fields()) == Built(files[..k])
    {
      assert files[..k + 1][..k] == files[..k];
      if files[k].1.Some? {
        idx.AddUnitsLocked(files[k].0, files[k].1.value);
      }
    }
    assert files[..|files|] == files;
  }

  lemma NoHits(ln: real -> real, cc: CharClass, s: State, qtoks: seq<string>, limit: int)
    requires Synced(cc, s) && LogLike(ln)
    requires qtoks == [] || s.totalDocs == 0
    ensures Answers(ln, s, qtoks, limit, [])
  {
    var order: seq<int>, full: seq<Result> := [], [];
    forall id ensures !Hit(s, qtoks, id) {
      if id in s.tokens {
        SubsetSize({id}, s.tokens.Keys);
      }
    }
    assert Ranks(ln, s, qtoks, order, full) && full == Limited(full, limit);
  }

  lemma WithUnitsSnoc(c: map<string, seq<Unit>>, rel: string, us: seq<Unit>, k: nat)
    requires k < |us|
    ensures WithUnits(c, rel, us[..k + 1]) == Extended(WithUnits(c, rel, us[..k]), rel, us[k].(file := rel))
  {
    assert us[..k + 1][..k] == us[..k];
    var before := if rel in c then c[rel] else [];
    assert Tagged(rel, us[..k + 1]) == Tagged(rel, us[..k]) + [us[k].(file := rel)];
    var x := us[k].(file := rel);
    assert before + (Tagged(rel, us[..k]) + [x]) == before + Tagged(rel, us[..k]) + [x];
    if k == 0 {
      assert before + Tagged(rel, us[..k]) == before;
    } else {
      var c' := WithUnits(c, rel, us[..k]);
      assert c'[rel] == before + Tagged(rel, us[..k]);
      assert c'[rel := c'[rel] + [x]] == c[rel := c'[rel] + [x]];
    }
  }
}
