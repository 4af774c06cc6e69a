/** internal/search/index.go: the fields of the BM25 index and what keeps them in step. */
module IndexState {
  import opened Text
  import opened Tokenize

  datatype Unit = Unit(file: string, symbol: string, kind: string, signature: string, doc: string)

  /** The fields of an Index, as one value. */
  datatype State = State(
    units: map<int, Unit>, tokens: map<int, seq<string>>, lengths: map<int, int>, df: map<string, int>,
    fileUnits: map<string, seq<int>>, nextID: int, totalLen: int, totalDocs: int)

  function UnitTokens(cc: CharClass, u: Unit): seq<string> {
    TokensOf(cc, u.symbol) + TokensOf(cc, u.signature) + TokensOf(cc, u.doc)
  }

  /** Every token of the symbol, the signature and the doc comment is indexed, as often as it occurs
      there; kind and file are not. */
  lemma UnitTokensExact(cc: CharClass, u: Unit, kind: string, file: string, t: string)
    ensures multiset(UnitTokens(cc, u))[t]
         == multiset(TokensOf(cc, u.symbol))[t] + multiset(TokensOf(cc, u.signature))[t]
            + multiset(TokensOf(cc, u.doc))[t]
    ensures UnitTokens(cc, u.(kind := kind, file := file)) == UnitTokens(cc, u)
  {}

  /** The live units containing token t. */
  ghost function Docs(tokens: map<int, seq<string>>, t: string): set<int> {
    set id | id in tokens && t in tokens[id]
  }

  /** df has key t exactly when the count n is positive, and then holds n. */
  ghost predicate DfIs(df: map<string, int>, t: string, n: int) {
    (t in df <==> n > 0) && (t in df ==> df[t] == n)
  }

  ghost function LengthSum(tokens: map<int, seq<string>>): (n: nat) {
    if exists id :: id in tokens then var id :| id in tokens; |tokens[id]| + LengthSum(tokens - {id}) else 0
  }

  /** lengths, df and the totals are what a recount of the live token vectors would give. */
  ghost predicate Counted(s: State) {
    && s.tokens.Keys == s.units.Keys == s.lengths.Keys
    && (forall id :: id in s.lengths ==> s.lengths[id] == |s.tokens[id]|)
    && (forall t :: DfIs(s.df, t, |Docs(s.tokens, t)|))
    && s.totalLen == LengthSum(s.tokens)
    && s.totalDocs == |s.tokens|
    && 0 <= s.nextID
    && (forall id :: id in s.units ==> 0 <= id < s.nextID)
  }

  /** Every live unit's token vector is the tokenisation of its text. */
  ghost predicate Tokenised(cc: CharClass, s: State) {
    forall id :: id in s.units && id in s.tokens ==> s.tokens[id] == UnitTokens(cc, s.units[id])
  }

  /** fileUnits partitions the live ids by file and lists no empty file. */
  ghost predicate Filed(s: State) {
    && (forall f :: f in s.fileUnits ==> s.fileUnits[f] != [] && NoDup(s.fileUnits[f]))
    && (forall f, id :: f in s.fileUnits && id in s.fileUnits[f] ==> id in s.units && s.units[id].file == f)
    && (forall id :: id in s.units ==> s.units[id].file in s.fileUnits && id in s.fileUnits[s.units[id].file])
  }

  ghost predicate Synced(cc: CharClass, s: State) {
    Counted(s) && Tokenised(cc, s) && Filed(s)
  }

  function Ids(ids: seq<int>): set<int> {
    set id | id in ids
  }

  lemma IdsSnoc(ids: seq<int>, k: nat)
    requires k < |ids| && NoDup(ids)
    ensures Ids(ids[..k + 1]) == Ids(ids[..k]) + {ids[k]}
    ensures ids[k] !in Ids(ids[..k])
  {
    assert ids[..k + 1] == ids[..k] + [ids[k]];
  }

  function UnitsAt(units: map<int, Unit>, ids: seq<int>): seq<Unit> {
    if ids == [] then []
    else
      var n := |ids| - 1;
      UnitsAt(units, ids[..n]) + if ids[n] in units then [units[ids[n]]] else []
  }

  /** What the index currently holds: its units, file by file. */
  ghost function Contents(s: State): map<string, seq<Unit>> {
    map f | f in s.fileUnits :: UnitsAt(s.units, s.fileUnits[f])
  }

  // ---- recounting ---------------------------------------------------------

  lemma {:induction false} LengthSumRemove(tokens: map<int, seq<string>>, id: int)
    requires id in tokens
    ensures LengthSum(tokens) == |tokens[id]| + LengthSum(tokens - {id})
    decreases |tokens|
  {
    var k :| k in tokens && LengthSum(tokens) == |tokens[k]| + LengthSum(tokens - {k});
    if k != id {
      LengthSumRemove(tokens - {k}, id);
      LengthSumRemove(tokens - {id}, k);
      assert tokens - {k} - {id} == tokens - {id} - {k};
    }
  }

  lemma {:induction false} LengthSumBound(tokens: map<int, seq<string>>, id: int)
    requires id in tokens
    ensures |tokens[id]| <= LengthSum(tokens)
  {
    LengthSumRemove(tokens, id);
  }

  lemma DocsBound(tokens: map<int, seq<string>>, t: string)
    ensures |Docs(tokens, t)| <= |tokens|
    ensures (exists id :: id in tokens && t in tokens[id]) ==> |Docs(tokens, t)| > 0
  {
    SubsetSize(Docs(tokens, t), tokens.Keys);
    if id :| id in tokens && t in tokens[id] {
      assert id in Docs(tokens, t);
    }
  }

  lemma {:induction false} UnitsAtAgree(units: map<int, Unit>, units': map<int, Unit>, ids: seq<int>)
    requires forall k :: 0 <= k < |ids| ==> ids[k] in units && ids[k] in units' && units[ids[k]] == units'[ids[k]]
    ensures UnitsAt(units, ids) == UnitsAt(units', ids)
  {
    if ids != [] {
      UnitsAtAgree(units, units', ids[..|ids| - 1]);
    }
  }

  // ---- one unit in, one unit out ------------------------------------------

  lemma DocsAdd(tokens: map<int, seq<string>>, id: int, toks: seq<string>, t: string)
    requires id !in tokens
    ensures |Docs(tokens[id := toks], t)| == |Docs(tokens, t)| + if t in toks then 1 else 0
  {
    assert Docs(tokens[id := toks], t) == Docs(tokens, t) + if t in toks then {id} else {};
  }

  lemma DocsRemove(tokens: map<int, seq<string>>, id: int, t: string)
    requires id in tokens
    ensures |Docs(tokens - {id}, t)| == |Docs(tokens, t)| - if t in tokens[id] then 1 else 0
  {
    assert Docs(tokens - {id}, t) == Docs(tokens, t) - {id};
    assert t in tokens[id] <==> id in Docs(tokens, t);
  }

  /** Counting in a unit under a fresh id. */
  lemma CountedAdd(s: State, s': State, u: Unit, toks: seq<string>)
    requires Counted(s)
    requires s'.units == s.units[s.nextID := u] && s'.tokens == s.tokens[s.nextID := toks]
    requires s'.lengths == s.lengths[s.nextID := |toks|] && s'.nextID == s.nextID + 1
    requires s'.totalLen == s.totalLen + |toks| && s'.totalDocs == s.totalDocs + 1
    requires forall t :: DfIs(s'.df, t, |Docs(s.tokens, t)| + if t in toks then 1 else 0)
    ensures Counted(s')
  {
    var id := s.nextID;
    assert id !in s.units;
    forall t ensures DfIs(s'.df, t, |Docs(s'.tokens, t)|) {
      DocsAdd(s.tokens, id, toks, t);
    }
    LengthSumRemove(s'.tokens, id);
    assert s'.tokens - {id} == s.tokens;
  }

  /** Counting out a live unit. */
  lemma CountedRemove(cc: CharClass, s: State, s': State, id: int)
    requires Counted(s) && Tokenised(cc, s) && id in s.tokens
    requires s'.units == s.units - {id} && s'.tokens == s.tokens - {id} && s'.lengths == s.lengths - {id}
    requires s'.nextID == s.nextID
    requires s'.totalLen == s.totalLen - s.lengths[id] && s'.totalDocs == s.totalDocs - 1
    requires forall t :: DfIs(s'.df, t, |Docs(s.tokens, t)| - if t in s.tokens[id] then 1 else 0)
    ensures Counted(s') && Tokenised(cc, s')
  {
    DfRemove(s.tokens, s'.tokens, s'.df, id);
    LengthSumRemove(s.tokens, id);
    hide DfIs, Docs;
    assert s'.tokens.Keys == s.tokens.Keys - {id};
  }

  lemma DfRemove(tokens: map<int, seq<string>>, tokens': map<int, seq<string>>, df: map<string, int>, id: int)
    requires id in tokens && tokens' == tokens - {id}
    requires forall t :: DfIs(df, t, |Docs(tokens, t)| - if t in tokens[id] then 1 else 0)
    ensures forall t :: DfIs(df, t, |Docs(tokens', t)|)
  {
    hide DfIs, Docs;
    forall t ensures DfIs(df, t, |Docs(tokens', t)|) {
      DocsRemove(tokens, id, t);
    }
  }

  lemma FiledIds(s: State, f: string)
    requires Filed(s) && f in s.fileUnits
    ensures forall k ::
      0 <= k < |s.fileUnits[f]| ==> s.fileUnits[f][k] in s.units && s.units[s.fileUnits[f][k]].file == f
  {
    forall k | 0 <= k < |s.fileUnits[f]| ensures s.fileUnits[f][k] in s.units && s.units[s.fileUnits[f][k]].file == f {
      var id := s.fileUnits[f][k];
      assert id in s.fileUnits[f];
    }
  }

  lemma UntouchedFiles(s: State, s': State, rel: string)
    requires Filed(s)
    requires forall id :: id in s.units && s.units[id].file != rel ==> id in s'.units && s'.units[id] == s.units[id]
    ensures forall f ::
      f in s.fileUnits && f != rel ==> UnitsAt(s'.units, s.fileUnits[f]) == UnitsAt(s.units, s.fileUnits[f])
  {
    forall f | f in s.fileUnits && f != rel
      ensures UnitsAt(s'.units, s.fileUnits[f]) == UnitsAt(s.units, s.fileUnits[f])
    {
      FiledIds(s, f);
      var ids := s.fileUnits[f];
      forall k | 0 <= k < |ids| ensures ids[k] in s'.units && s'.units[ids[k]] == s.units[ids[k]] {
        var id := s.fileUnits[f][k];
        assert id in s.units && s.units[id].file == f;
      }
      UnitsAtAgree(s.units, s'.units, ids);
    }
  }

  function Extended<T>(m: map<string, seq<T>>, rel: string, x: T): map<string, seq<T>> {
    m[rel := (if rel in m then m[rel] else []) + [x]]
  }

  /** Filing a fresh id at the end of its file's list keeps the partition and appends to that file. */
  lemma FiledAdd(s: State, s': State, u: Unit)
    requires Filed(s) && s.nextID !in s.units
    requires s'.units == s.units[s.nextID := u]
    requires s'.fileUnits == Extended(s.fileUnits, u.file, s.nextID)
    ensures Filed(s')
    ensures Contents(s') == Extended(Contents(s), u.file, u)
  {
    hide Filed, Contents;
    FiledAddPartition(s, s', u);
    FiledAddAppends(s, s', u);
    UntouchedFiles(s, s', u.file);
    ContentsAdd(s, s', u);
  }

  lemma NoUnits(units: map<int, Unit>)
    ensures UnitsAt(units, []) == []
  {}

  lemma ContentsAdd(s: State, s': State, u: Unit)
    requires s'.fileUnits == Extended(s.fileUnits, u.file, s.nextID)
    requires var before := if u.file in s.fileUnits then s.fileUnits[u.file] else [];
      UnitsAt(s'.units, before + [s.nextID]) == UnitsAt(s.units, before) + [u]
    requires forall f ::
      f in s.fileUnits && f != u.file ==> UnitsAt(s'.units, s.fileUnits[f]) == UnitsAt(s.units, s.fileUnits[f])
    ensures Contents(s') == Extended(Contents(s), u.file, u)
  {
    hide UnitsAt;
    var c, c' := Contents(s), Contents(s');
    assert c'.Keys == c.Keys + {u.file};
    assert s.fileUnits.Keys == c.Keys;
    if u.file !in s.fileUnits {
      assert UnitsAt(s.units, []) == [] by { NoUnits(s.units); }
    }
    assert c'[u.file] == Extended(c, u.file, u)[u.file];
    forall f | f in c && f != u.file ensures c'[f] == c[f] {
      assert s'.fileUnits[f] == s.fileUnits[f];
    }
  }

  lemma FiledAddAppends(s: State, s': State, u: Unit)
    requires Filed(s) && s.nextID !in s.units
    requires s'.units == s.units[s.nextID := u]
    ensures var before := if u.file in s.fileUnits then s.fileUnits[u.file] else [];
      UnitsAt(s'.units, before + [s.nextID]) == UnitsAt(s.units, before) + [u]
  {
    var before := if u.file in s.fileUnits then s.fileUnits[u.file] else [];
    if u.file in s.fileUnits {
      FiledIds(s, u.file);
    }
    UnitsAtAgree(s.units, s'.units, before);
    assert (before + [s.nextID])[..|before|] == before;
  }

  lemma FiledAddPartition(s: State, s': State, u: Unit)
    requires Filed(s) && s.nextID !in s.units
    requires s'.units == s.units[s.nextID := u]
    requires s'.fileUnits == Extended(s.fileUnits, u.file, s.nextID)
    ensures Filed(s')
  {
    var id, rel := s.nextID, u.file;
    var before := if rel in s.fileUnits then s.fileUnits[rel] else [];
    assert forall x :: x in before + [id] <==> x in before || x == id;
    assert s'.fileUnits[rel] == before + [id];
    assert NoDup(before + [id]) by {
      forall k | 0 <= k < |before| ensures before[k] != id {
        assert before[k] in before;
      }
    }
  }

  /** Dropping a file's ids and its list keeps the partition and every other file. */
  lemma FiledRemove(s: State, s': State, rel: string)
    requires Filed(s) && rel in s.fileUnits
    requires s'.units == s.units - Ids(s.fileUnits[rel])
    requires s'.fileUnits == s.fileUnits - {rel}
    ensures Filed(s')
    ensures Contents(s') == Contents(s) - {rel}
  {
    hide Filed, UnitsAt;
    OtherUnitsStay(s, s', rel);
    FiledRemovePartition(s, s', rel);
    UntouchedFiles(s, s', rel);
    assert Contents(s').Keys == Contents(s).Keys - {rel};
  }

  lemma OtherUnitsStay(s: State, s': State, rel: string)
    requires Filed(s) && rel in s.fileUnits
    requires s'.units == s.units - Ids(s.fileUnits[rel])
    ensures forall id :: id in s.units && s.units[id].file != rel ==> id in s'.units && s'.units[id] == s.units[id]
    ensures forall id :: id in s'.units ==> id in s.units && s'.units[id] == s.units[id] && s.units[id].file != rel
  {}

  lemma FiledRemovePartition(s: State, s': State, rel: string)
    requires Filed(s) && rel in s.fileUnits
    requires s'.fileUnits == s.fileUnits - {rel}
    requires forall id :: id in s.units && s.units[id].file != rel ==> id in s'.units && s'.units[id] == s.units[id]
    requires forall id :: id in s'.units ==> id in s.units && s'.units[id] == s.units[id] && s.units[id].file != rel
    ensures Filed(s')
  {}

  lemma SyncedDf(cc: CharClass, s: State)
    requires Synced(cc, s)
    ensures forall t :: DfIs(s.df, t, |Docs(s.tokens, t)|)
  {}

  lemma SyncedAdd(cc: CharClass, s: State, s': State, u: Unit, toks: seq<string>)
    requires Synced(cc, s) && toks == UnitTokens(cc, u)
    requires s'.units == s.units[s.nextID := u] && s'.tokens == s.tokens[s.nextID := toks]
    requires s'.lengths == s.lengths[s.nextID := |toks|] && s'.nextID == s.nextID + 1
    requires s'.totalLen == s.totalLen + |toks| && s'.totalDocs == s.totalDocs + 1
    requires forall t :: DfIs(s'.df, t, |Docs(s.tokens, t)| + if t in toks then 1 else 0)
    requires s'.fileUnits == Extended(s.fileUnits, u.file, s.nextID)
    ensures Synced(cc, s') && Contents(s') == Extended(Contents(s), u.file, u)
  {
    assert s.nextID !in s.units;
    CountedAdd(s, s', u, toks);
    FiledAdd(s, s', u);
  }

  lemma CountedIgnoresFiles(cc: CharClass, s: State, s': State)
    requires s' == s.(fileUnits := s'.fileUnits)
    ensures Counted(s) ==> Counted(s')
    ensures Tokenised(cc, s) ==> Tokenised(cc, s')
  {}

  lemma SyncedRemove(cc: CharClass, s: State, s': State, rel: string)
    requires Synced(cc, s) && rel in s.fileUnits
    requires Counted(s') && Tokenised(cc, s')
    requires s'.units == s.units - Ids(s.fileUnits[rel]) && s'.fileUnits == s.fileUnits - {rel}
    ensures Synced(cc, s') && Contents(s') == Contents(s) - {rel}
  {
    FiledRemove(s, s', rel);
  }
}
