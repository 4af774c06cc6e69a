/** internal/tools/glob.go: the **-aware path matcher.
    filepath.Match on one segment is the parameter m, with its error result read as no match. */
module Glob {
  import opened Text

  type SegmentMatch = (string, string) -> bool

  // ---- the matcher on strings ---------------------------------------------

  function PopSegment(s: string): (r: (string, string))
    ensures '/' !in r.0 && s == (if '/' in s then r.0 + "/" + r.1 else r.0)
    ensures '/' !in s ==> r.1 == ""
    ensures s != "" ==> |r.1| < |s|
  {
    var i := Index(s, '/');
    if i == |s| then (s, "") else (s[..i], s[i + 1..])
  }

  predicate StarPrefixed(pattern: string) {
    |pattern| >= 3 && pattern[..3] == "**/"
  }

  /** What the matcher computes, as one recursion on the two strings. */
  function Accepts(m: SegmentMatch, pattern: string, path: string): bool
    decreases |pattern| + |path|
  {
    if pattern == "" then path == ""
    else if pattern == "**" then true
    else if StarPrefixed(pattern) then
      var i := Index(path, '/');
      Accepts(m, pattern[3..], path) || (i < |path| && Accepts(m, pattern, path[i + 1..]))
    else
      var (pp, pattern') := PopSegment(pattern);
      var (qp, path') := PopSegment(path);
      assert |path'| <= |path|;
      m(pp, qp) && Accepts(m, pattern', path')
  }

  method DoublestarMatch(m: SegmentMatch, pattern0: string, path0: string) returns (r: bool)
    ensures r == Accepts(m, pattern0, path0)
    decreases |pattern0| + |path0|, 1
  {
    var pattern, path := pattern0, path0;
    while pattern != ""
      invariant Accepts(m, pattern, path) == Accepts(m, pattern0, path0)
      invariant |pattern| + |path| <= |pattern0| + |path0|
      decreases |pattern|
    {
      var matched, ok := MatchDoublestarPrefix(m, pattern, path);
      if ok {
        return matched;
      }
      var (pp, pattern') := PopSegment(pattern);
      var (qp, path') := PopSegment(path);
      if !m(pp, qp) {
        return false;
      }
      pattern, path := pattern', path';
      if pattern == "" {
        return path == "";
      }
    }
    return path == "";
  }

  method MatchDoublestarPrefix(m: SegmentMatch, pattern: string, path: string) returns (matched: bool, ok: bool)
    ensures ok <==> pattern == "**" || StarPrefixed(pattern)
    ensures ok ==> matched == Accepts(m, pattern, path)
    ensures !ok ==> !matched
    decreases |pattern| + |path|, 0
  {
    if pattern == "**" {
      return true, true;
    }
    if !StarPrefixed(pattern) {
      return false, false;
    }
    var skipped := DoublestarMatch(m, pattern[3..], path);
    if skipped {
      return true, true;
    }
    var i := Index(path, '/');
    if i < |path| {
      matched := DoublestarMatch(m, pattern, path[i + 1..]);
      return matched, true;
    }
    return false, true;
  }

  function LastSegment(path: string): string {
    var i := Index(path, '/');
    if i == |path| then path else LastSegment(path[i + 1..])
  }

  /** What the entry point computes. */
  function Matches(m: SegmentMatch, pattern: string, path: string): bool {
    if '/' in pattern then Accepts(m, pattern, path) else m(pattern, LastSegment(path))
  }

  method MatchDoublestar(m: SegmentMatch, pattern: string, path: string) returns (r: bool)
    ensures r == Matches(m, pattern, path)
  {
    if '/' !in pattern {
      return m(pattern, LastSegment(path));
    }
    r := DoublestarMatch(m, pattern, path);
  }

  // ---- the textbook relation on segment lists -----------------------------

  const STARS := "**"

  /** Each plain segment matches one name and ** matches any number of names. */
  ghost predicate Textbook(m: SegmentMatch, ps: seq<string>, ns: seq<string>) {
    if ps == [] then ns == []
    else if ps[0] == STARS then exists k :: 0 <= k <= |ns| && Textbook(m, ps[1..], ns[k..])
    else ns != [] && m(ps[0], ns[0]) && Textbook(m, ps[1..], ns[1..])
  }

  ghost predicate Segments(s: seq<string>) {
    forall k :: 0 <= k < |s| ==> s[k] != "" && '/' !in s[k]
  }

  /** The segments of a path: slash-free, and the last one not empty, so the text does not end in a slash. */
  ghost predicate Names(s: seq<string>) {
    (forall k :: 0 <= k < |s| ==> '/' !in s[k]) && (s != [] ==> s[|s| - 1] != "")
  }

  /** A pattern segment that matches the empty name is a run of *, and matches every name. */
  ghost predicate StarLaw(m: SegmentMatch) {
    forall p, n :: p != "" && m(p, "") && '/' !in n ==> m(p, n)
  }

  /** The matcher read on lists: an exhausted path keeps supplying empty names. */
  ghost predicate Listed(m: SegmentMatch, ps: seq<string>, ns: seq<string>)
    decreases |ps| + |ns|
  {
    if ps == [] then ns == []
    else if ps == [STARS] then true
    else if ps[0] == STARS then Listed(m, ps[1..], ns) || (|ns| >= 2 && Listed(m, ps, ns[1..]))
    else if ns == [] then m(ps[0], "") && Listed(m, ps[1..], [])
    else m(ps[0], ns[0]) && Listed(m, ps[1..], ns[1..])
  }

  /** Every path that does not end in a slash is the join of such segments, its own pieces. */
  lemma {:induction false} PathNames(path: string)
    requires path != "" && path[|path| - 1] != '/'
    ensures Names(Split(path, '/')) && Join(Split(path, '/'), '/') == path
  {
    hide Join, Index;
    JoinSplit(path, '/');
    var parts := Split(path, '/');
    SplitFirst(path, '/');
    var i := Index(path, '/');
    if i < |path| {
      PathNames(path[i + 1..]);
    }
    forall k | 0 <= k < |parts| ensures '/' !in parts[k] {
      assert parts[k] in parts;
    }
  }

  lemma JoinPop(s: seq<string>)
    requires |s| >= 1 && Names(s)
    ensures Join(s, '/') != ""
    ensures PopSegment(Join(s, '/')) == (s[0], Join(s[1..], '/'))
    ensures Index(Join(s, '/'), '/') == |s[0]|
    ensures |s| == 1 ==> Join(s, '/') == s[0]
    ensures |s| >= 2 ==> Join(s, '/') == s[0] + "/" + Join(s[1..], '/')
  {
    var j := Join(s, '/');
    if |s| == 1 {
      IndexAt(j, '/', |j|);
    } else {
      assert j[..|s[0]|] == s[0] && j[|s[0]| + 1..] == Join(s[1..], '/');
      IndexAt(j, '/', |s[0]|);
    }
  }

  lemma JoinStars(s: seq<string>)
    requires |s| >= 1 && Segments(s)
    ensures Join(s, '/') == STARS <==> s == [STARS]
    ensures StarPrefixed(Join(s, '/')) <==> |s| >= 2 && s[0] == STARS
    ensures |s| >= 2 && s[0] == STARS ==> Join(s, '/')[3..] == Join(s[1..], '/')
  {
    hide Join, Index;
    JoinPop(s);
    var j := Join(s, '/');
    if |s| == 1 {
      SlashlessNotPrefixed(j);
    } else {
      var rest := Join(s[1..], '/');
      assert j[|s[0]|] == '/' && j[..|s[0]|] == s[0];
      if s[0] == STARS {
        assert j[..3] == "**/" && j[3..] == rest;
      } else {
        PrefixFixesHead(s[0], rest);
      }
    }
  }

  lemma SlashlessNotPrefixed(j: string)
    requires '/' !in j
    ensures !StarPrefixed(j)
  {
    if |j| >= 3 {
      assert j[..3][2] == j[2];
    }
  }

  lemma PrefixFixesHead(head: string, rest: string)
    requires '/' !in head && head != STARS
    ensures !StarPrefixed(head + "/" + rest) && head + "/" + rest != STARS
  {
    var j := head + "/" + rest;
    assert j[|head|] == '/';
    if |head| == 2 {
      assert j[0] == head[0] && j[1] == head[1];
      assert head == [head[0], head[1]];
    } else if |head| > 2 {
      assert j[2] == head[2];
    }
  }

  lemma {:induction false} AcceptsListed(m: SegmentMatch, ps: seq<string>, ns: seq<string>)
    requires Segments(ps) && Names(ns)
    ensures Accepts(m, Join(ps, '/'), Join(ns, '/')) == Listed(m, ps, ns)
    decreases |ps| + |ns|
  {
    if ns != [] {
      JoinPop(ns);
    }
    if ps != [] {
      JoinPop(ps);
      JoinStars(ps);
      if ps == [STARS] {
      } else if ps[0] == STARS {
        AcceptsListed(m, ps[1..], ns);
        if |ns| >= 2 {
          AcceptsListed(m, ps, ns[1..]);
        }
      } else {
        AcceptsListed(m, ps[1..], if ns == [] then [] else ns[1..]);
      }
    }
  }

  // ---- the matcher against the textbook -----------------------------------

  /** ** matches no name, or one name more. */
  lemma StarStep(m: SegmentMatch, ps: seq<string>, ns: seq<string>)
    requires ps != [] && ps[0] == STARS
    ensures Textbook(m, ps, ns) <==> Textbook(m, ps[1..], ns) || (ns != [] && Textbook(m, ps, ns[1..]))
  {
    if Textbook(m, ps[1..], ns) {
      assert ns[0..] == ns;
    }
    if k :| 0 <= k <= |ns| && Textbook(m, ps[1..], ns[k..]) {
      if k == 0 {
        assert ns[0..] == ns;
      } else {
        assert ns[1..][k - 1..] == ns[k..];
      }
    }
    if ns != [] && Textbook(m, ps, ns[1..]) {
      var k :| 0 <= k <= |ns[1..]| && Textbook(m, ps[1..], ns[1..][k..]);
      assert ns[1..][k..] == ns[k + 1..];
    }
  }

  function Pads(k: nat): seq<string> {
    if k == 0 then [] else [""] + Pads(k - 1)
  }

  /** A lone ** matches everything. */
  lemma LoneStar(m: SegmentMatch, ps: seq<string>, ns: seq<string>)
    requires ps == [STARS]
    ensures Textbook(m, ps, ns)
  {
    assert ns[|ns|..] == [];
    assert Textbook(m, ps[1..], ns[|ns|..]);
  }

  /** Whatever the matcher accepts is a textbook match once the path is padded with empty names. */
  lemma {:induction false} ListedIsPadded(m: SegmentMatch, ps: seq<string>, ns: seq<string>) returns (k: nat)
    requires Listed(m, ps, ns)
    ensures Textbook(m, ps, ns + Pads(k))
    decreases |ps| + |ns|
  {
    k := 0;
    if ps == [] {
    } else if ps == [STARS] {
      LoneStar(m, ps, ns + Pads(0));
    } else if ps[0] == STARS {
      if Listed(m, ps[1..], ns) {
        k := ListedIsPadded(m, ps[1..], ns);
      } else {
        k := ListedIsPadded(m, ps, ns[1..]);
        assert (ns + Pads(k))[1..] == ns[1..] + Pads(k);
      }
      StarStep(m, ps, ns + Pads(k));
    } else if ns == [] {
      k := ListedIsPadded(m, ps[1..], []);
      assert [] + Pads(k) == Pads(k);
      k := k + 1;
      assert [] + Pads(k) == Pads(k);
      assert Pads(k)[1..] == Pads(k - 1);
    } else {
      k := ListedIsPadded(m, ps[1..], ns[1..]);
      assert (ns + Pads(k))[1..] == ns[1..] + Pads(k);
    }
  }

  /** A pattern the matcher lets run past the end of the path also takes one name. */
  lemma {:induction false} TakesOneName(m: SegmentMatch, ps: seq<string>, n: string)
    requires StarLaw(m) && Segments(ps) && '/' !in n && ps != []
    requires Listed(m, ps, [])
    ensures Listed(m, ps, [n])
  {
    if ps != [STARS] && ps[0] == STARS {
      TakesOneName(m, ps[1..], n);
    }
  }

  /** One step of both readings where the pattern does not continue with **. */
  lemma PlainCases(m: SegmentMatch, ps: seq<string>, ns: seq<string>, padded: seq<string>)
    ensures ps == [] ==> (Listed(m, ps, ns) <==> ns == []) && (Textbook(m, ps, padded) <==> padded == [])
    ensures ps == [STARS] ==> Listed(m, ps, ns)
    ensures ps != [] && ps[0] != STARS && ns == [] ==> (Listed(m, ps, ns) <==> m(ps[0], "") && Listed(m, ps[1..], []))
    ensures ps != [] && ps[0] != STARS && ns != [] ==> (Listed(m, ps, ns)
      <==> m(ps[0], ns[0]) && Listed(m, ps[1..], ns[1..]))
    ensures ps != [] && ps[0] != STARS ==>
      (Textbook(m, ps, padded) <==> padded != [] && m(ps[0], padded[0]) && Textbook(m, ps[1..], padded[1..]))
  {}

  lemma ListedStar(m: SegmentMatch, ps: seq<string>, ns: seq<string>)
    requires StarLaw(m) && Segments(ps) && Names(ns) && |ps| >= 2 && ps[0] == STARS
    requires || Listed(m, ps[1..], ns) || (ns == [] && Listed(m, ps, []))
             || (ns != [] && Listed(m, ps, ns[1..]))
    ensures Listed(m, ps, ns)
  {
    if |ns| == 1 && !Listed(m, ps[1..], ns) {
      assert ns == [ns[0]] && ns[1..] == [];
      TakesOneName(m, ps[1..], ns[0]);
    }
  }

  lemma PaddedTail(ns: seq<string>, k: nat)
    ensures ns != [] ==> (ns + Pads(k))[1..] == ns[1..] + Pads(k) && (ns + Pads(k))[0] == ns[0]
    ensures ns == [] && k > 0 ==> ns + Pads(k) == [""] + Pads(k - 1) && (ns + Pads(k))[1..] == [] + Pads(k - 1)
    ensures ns + Pads(k) == [] <==> ns == [] && k == 0
  {}

  /** Whatever the textbook accepts on a padded path the matcher accepts on the bare one. */
  lemma {:induction false} PaddedIsListed(m: SegmentMatch, ps: seq<string>, ns: seq<string>, k: nat)
    requires StarLaw(m) && Segments(ps) && Names(ns)
    requires Textbook(m, ps, ns + Pads(k))
    ensures Listed(m, ps, ns)
    decreases |ps| + |ns| + k
  {
    hide StarLaw, Pads, Textbook, Listed;
    PaddedTail(ns, k);
    PlainCases(m, ps, ns, ns + Pads(k));
    if ps == [] || ps == [STARS] {
    } else if ps[0] == STARS {
      StarStep(m, ps, ns + Pads(k));
      if Textbook(m, ps[1..], ns + Pads(k)) {
        PaddedIsListed(m, ps[1..], ns, k);
      } else if ns == [] {
        PaddedIsListed(m, ps, [], k - 1);
      } else {
        PaddedIsListed(m, ps, ns[1..], k);
      }
      ListedStar(m, ps, ns);
    } else if ns == [] {
      PaddedIsListed(m, ps[1..], [], k - 1);
    } else {
      PaddedIsListed(m, ps[1..], ns[1..], k);
    }
  }

  /** What doublestarMatch accepts, for every pattern and path without empty segments: the textbook
      relation, on the path followed by some number of empty names. */
  lemma AcceptsExactly(m: SegmentMatch, ps: seq<string>, ns: seq<string>)
    requires StarLaw(m) && Segments(ps) && Names(ns)
    ensures Accepts(m, Join(ps, '/'), Join(ns, '/')) <==> exists k :: Textbook(m, ps, ns + Pads(k))
  {
    hide Textbook, Listed;
    AcceptsListed(m, ps, ns);
    if Listed(m, ps, ns) {
      var k := ListedIsPadded(m, ps, ns);
    }
    if k :| Textbook(m, ps, ns + Pads(k)) {
      PaddedIsListed(m, ps, ns, k);
    }
  }

  // ---- when the padding matters -------------------------------------------

  /** The segments of a pattern that must each take a name. */
  function Plain(ps: seq<string>): seq<string> {
    if ps == [] then [] else (if ps[0] == STARS then [] else [ps[0]]) + Plain(ps[1..])
  }

  ghost predicate MatchesSomeName(m: SegmentMatch, p: string) {
    exists n :: n != "" && '/' !in n && m(p, n)
  }

  /** Two or more plain segments, the last of which matches the empty name while every other one
      matches some name. */
  ghost predicate RunsPastTheEnd(m: SegmentMatch, ps: seq<string>) {
    var plain := Plain(ps);
    |plain| >= 2 && m(plain[|plain| - 1], "") && forall i :: 0 <= i < |plain| - 1 ==> MatchesSomeName(m, plain[i])
  }

  lemma {:induction false} AllStars(m: SegmentMatch, ps: seq<string>, ns: seq<string>)
    requires Plain(ps) == []
    ensures Textbook(m, ps, ns) <==> ps != [] || ns == []
  {
    if ps != [] {
      AllStars(m, ps[1..], ns[|ns|..]);
      assert Textbook(m, ps[1..], ns[|ns|..]);
    }
  }

  ghost predicate TakesFrom(m: SegmentMatch, p: string, ns: seq<string>) {
    exists i :: 0 <= i < |ns| && m(p, ns[i])
  }

  lemma TakesFromSuffix(m: SegmentMatch, p: string, ns: seq<string>, k: nat)
    requires k <= |ns| && TakesFrom(m, p, ns[k..])
    ensures TakesFrom(m, p, ns)
  {
    var i :| 0 <= i < |ns[k..]| && m(p, ns[k..][i]);
    assert m(p, ns[k + i]);
  }

  lemma {:induction false} NeedsANameEach(m: SegmentMatch, ps: seq<string>, ns: seq<string>)
    requires Textbook(m, ps, ns)
    ensures |ns| >= |Plain(ps)|
    ensures forall i :: 0 <= i < |Plain(ps)| ==> TakesFrom(m, Plain(ps)[i], ns)
    decreases ps
  {
    if ps != [] {
      var k := 1;
      if ps[0] == STARS {
        k :| 0 <= k <= |ns| && Textbook(m, ps[1..], ns[k..]);
      } else {
        assert TakesFrom(m, ps[0], ns);
      }
      hide Textbook, TakesFrom;
      NeedsANameEach(m, ps[1..], ns[k..]);
      var rest := Plain(ps[1..]);
      forall i | 0 <= i < |rest| ensures TakesFrom(m, rest[i], ns) {
        TakesFromSuffix(m, rest[i], ns, k);
      }
    }
  }

  /** A pad in the place of the only name taken by ** can be traded for any name. */
  lemma {:induction false} PadForName(m: SegmentMatch, ps: seq<string>, n: string)
    requires StarLaw(m) && Segments(ps) && '/' !in n
    requires Textbook(m, ps, [""])
    ensures Textbook(m, ps, [n])
  {
    hide StarLaw;
    if ps[0] == STARS {
      StarStep(m, ps, [""]);
      StarStep(m, ps, [n]);
      if Textbook(m, ps[1..], [""]) {
        PadForName(m, ps[1..], n);
      } else {
        assert [""][1..] == [n][1..];
      }
    } else {
      assert m(ps[0], n) by { UseStarLaw(m, ps[0], n); }
      assert [""][1..] == [n][1..];
    }
  }

  lemma UseStarLaw(m: SegmentMatch, p: string, n: string)
    requires StarLaw(m) && p != "" && m(p, "") && '/' !in n
    ensures m(p, n)
  {}

  /** The last segment that needs a name, if any, does not need a pad on a path ns. */
  ghost predicate PadUseless(m: SegmentMatch, ps: seq<string>, ns: seq<string>) {
    var plain := Plain(ps);
    plain != [] ==> !m(plain[|plain| - 1], "") || (|plain| == 1 && ns != [])
  }

  lemma PlainSteps(m: SegmentMatch, ps: seq<string>, ns: seq<string>)
    requires ps != []
    ensures ps[0] == STARS ==> Plain(ps) == Plain(ps[1..])
    ensures ps[0] != STARS ==> Plain(ps) == [ps[0]] + Plain(ps[1..])
    ensures PadUseless(m, ps, ns) && Plain(ps[1..]) != [] && ps[0] != STARS ==> PadUseless(m, ps[1..], ns[..0])
  {}

  /** Unless the pattern runs past the end, a trailing pad is never needed. */
  lemma {:induction false} DropPad(m: SegmentMatch, ps: seq<string>, ns: seq<string>)
    requires StarLaw(m) && Segments(ps)
    requires Textbook(m, ps, ns + [""])
    requires PadUseless(m, ps, ns)
    requires forall k :: 0 <= k < |ns| ==> '/' !in ns[k]
    ensures Textbook(m, ps, ns)
    decreases |ps| + |ns|
  {
    hide StarLaw, Textbook, Plain;
    var padded := ns + [""];
    if ns != [] {
      assert padded[1..] == ns[1..] + [""];
    }
    if Plain(ps) == [] {
      AllStars(m, ps, padded);
      AllStars(m, ps, ns);
    } else {
      assert ps != [] by { PlainNil(); }
      PlainSteps(m, ps, ns);
      if ps[0] == STARS {
        DropPadStar(m, ps, ns);
      } else {
        PlainCases(m, ps, [], padded);
        PlainCases(m, ps, [], ns);
        NeedsANameEach(m, ps, padded);
        if Plain(ps[1..]) == [] {
          AllStars(m, ps[1..], padded[1..]);
          AllStars(m, ps[1..], ns[1..]);
        } else {
          DropPad(m, ps[1..], ns[1..]);
        }
      }
    }
  }

  lemma PlainNil()
    ensures Plain([]) == []
  {}

  lemma {:induction false} DropPadStar(m: SegmentMatch, ps: seq<string>, ns: seq<string>)
    requires StarLaw(m) && Segments(ps) && ps != [] && ps[0] == STARS
    requires Textbook(m, ps, ns + [""])
    requires PadUseless(m, ps, ns)
    requires forall k :: 0 <= k < |ns| ==> '/' !in ns[k]
    ensures Textbook(m, ps, ns)
    decreases |ps| + |ns|, 0
  {
    hide StarLaw, Textbook, Plain;
    var padded := ns + [""];
    PlainSteps(m, ps, ns);
    StarStep(m, ps, padded);
    StarStep(m, ps, ns);
    if Textbook(m, ps[1..], padded) {
      DropPad(m, ps[1..], ns);
    } else if ns == [] {
      assert padded[1..] == ns;
    } else {
      assert padded[1..] == ns[1..] + [""];
      if |ns| == 1 {
        assert padded[1..] == [""] && ns == [ns[0]];
        PadForName(m, ps, ns[0]);
      } else {
        DropPadStar(m, ps, ns[1..]);
      }
    }
  }

  lemma {:induction false} DropPads(m: SegmentMatch, ps: seq<string>, ns: seq<string>, k: nat)
    requires StarLaw(m) && Segments(ps) && Names(ns) && ns != []
    requires PadUseless(m, ps, ns)
    requires Textbook(m, ps, ns + Pads(k))
    ensures Textbook(m, ps, ns)
  {
    hide Textbook, StarLaw, Plain;
    if k == 0 {
      assert ns + Pads(0) == ns;
    } else {
      PadsSnoc(k - 1);
      assert ns + Pads(k) == ns + Pads(k - 1) + [""];
      var padded := ns + Pads(k - 1);
      PadsEmpty(k - 1);
      assert forall j :: 0 <= j < |padded| ==> '/' !in padded[j];
      DropPad(m, ps, padded);
      DropPads(m, ps, ns, k - 1);
    }
  }

  lemma {:induction false} PadsSnoc(k: nat)
    ensures Pads(k + 1) == Pads(k) + [""]
  {
    if k > 0 {
      PadsSnoc(k - 1);
    }
  }

  lemma {:induction false} PadsEmpty(k: nat)
    ensures |Pads(k)| == k && forall j :: 0 <= j < k ==> Pads(k)[j] == ""
  {
    if k > 0 {
      PadsEmpty(k - 1);
    }
  }

  /** One name per plain segment is enough, ** taking nothing. */
  lemma {:induction false} NameEach(m: SegmentMatch, ps: seq<string>, ns: seq<string>)
    requires |ns| == |Plain(ps)| && forall i :: 0 <= i < |ns| ==> m(Plain(ps)[i], ns[i])
    ensures Textbook(m, ps, ns)
  {
    if ps != [] {
      if ps[0] == STARS {
        NameEach(m, ps[1..], ns);
        assert ns[0..] == ns;
      } else {
        assert Plain(ps)[0] == ps[0] && Plain(ps)[1..] == Plain(ps[1..]);
        NameEach(m, ps[1..], ns[1..]);
      }
    }
  }

  lemma {:induction false} PickNames(m: SegmentMatch, plain: seq<string>) returns (ns: seq<string>)
    requires forall i :: 0 <= i < |plain| ==> MatchesSomeName(m, plain[i])
    ensures Segments(ns) && |ns| == |plain| && forall i :: 0 <= i < |plain| ==> m(plain[i], ns[i])
  {
    if plain == [] {
      ns := [];
    } else {
      var rest := PickNames(m, plain[1..]);
      assert MatchesSomeName(m, plain[0]);
      var n :| n != "" && '/' !in n && m(plain[0], n);
      ns := [n] + rest;
    }
  }

  /** A pattern that runs past the end accepts some path one name too short for it. */
  lemma OvershootWitness(m: SegmentMatch, ps: seq<string>) returns (ns: seq<string>)
    requires StarLaw(m) && Segments(ps) && RunsPastTheEnd(m, ps)
    ensures Segments(ns) && ns != [] && Listed(m, ps, ns) && !Textbook(m, ps, ns)
  {
    hide Listed, StarLaw;
    var plain := Plain(ps);
    var last := |plain| - 1;
    ns := PickNames(m, plain[..last]);
    NameEach(m, ps, ns + [""]);
    assert Pads(1) == [""] by { assert Pads(0) == []; }
    PaddedIsListed(m, ps, ns, 1);
    if Textbook(m, ps, ns) {
      NeedsANameEach(m, ps, ns);
    }
  }

  lemma {:induction false} PlainIsSegment(ps: seq<string>)
    requires Segments(ps)
    ensures Segments(Plain(ps))
  {
    if ps != [] {
      PlainIsSegment(ps[1..]);
    }
  }

  /** A plain segment matched along a padded path matches some real name. */
  lemma MatchedSegmentTakesName(m: SegmentMatch, ps: seq<string>, ns: seq<string>, k: nat, i: nat)
    requires StarLaw(m) && Segments(ps) && Names(ns)
    requires Textbook(m, ps, ns + Pads(k)) && i < |Plain(ps)|
    ensures MatchesSomeName(m, Plain(ps)[i])
  {
    NeedsANameEach(m, ps, ns + Pads(k));
    PlainIsSegment(ps);
    PadsEmpty(k);
    var p := Plain(ps)[i];
    var padded := ns + Pads(k);
    var j :| 0 <= j < |padded| && m(p, padded[j]);
    if padded[j] == "" {
      UseStarLaw(m, p, "x");
      assert m(p, "x");
    }
  }

  /** doublestarMatch is the textbook relation on every path exactly when the pattern cannot run
      past the end: fewer than two plain segments, or a last plain segment that needs a real name,
      or some other plain segment that matches no name at all. */
  lemma TextbookExactlyUnlessOvershoot(m: SegmentMatch, ps: seq<string>)
    requires StarLaw(m) && Segments(ps)
    ensures (forall ns :: Names(ns) && ns != [] ==>
        (Accepts(m, Join(ps, '/'), Join(ns, '/')) <==> Textbook(m, ps, ns)))
      <==> !RunsPastTheEnd(m, ps)
  {
    hide Textbook, Listed, Accepts, StarLaw;
    if RunsPastTheEnd(m, ps) {
      var ns := OvershootWitness(m, ps);
      AcceptsListed(m, ps, ns);
    } else {
      forall ns | Names(ns) && ns != [] ensures Accepts(m, Join(ps, '/'), Join(ns, '/')) <==> Textbook(m, ps, ns) {
        TextbookUnlessOvershoot(m, ps, ns);
      }
    }
  }

  lemma TextbookUnlessOvershoot(m: SegmentMatch, ps: seq<string>, ns: seq<string>)
    requires StarLaw(m) && Segments(ps) && Names(ns) && ns != []
    requires !RunsPastTheEnd(m, ps)
    ensures Accepts(m, Join(ps, '/'), Join(ns, '/')) <==> Textbook(m, ps, ns)
  {
    hide Textbook, Accepts, StarLaw, Plain;
    AcceptsExactly(m, ps, ns);
    if Textbook(m, ps, ns) {
      assert ns + Pads(0) == ns;
      assert Textbook(m, ps, ns + Pads(0));
    }
    if k :| Textbook(m, ps, ns + Pads(k)) {
      var plain := Plain(ps);
      forall i | 0 <= i < |plain| ensures MatchesSomeName(m, plain[i]) {
        MatchedSegmentTakesName(m, ps, ns, k, i);
      }
      DropPads(m, ps, ns, k);
    }
  }

  /** The documented case: a pattern whose plain segments all need a real name. */
  lemma TextbookWhenSegmentsNeedNames(m: SegmentMatch, ps: seq<string>, ns: seq<string>)
    requires StarLaw(m) && Segments(ps) && Names(ns) && ns != []
    requires forall p :: p in ps && p != STARS ==> !m(p, "")
    ensures Accepts(m, Join(ps, '/'), Join(ns, '/')) <==> Textbook(m, ps, ns)
  {
    PlainMember(ps);
    assert !RunsPastTheEnd(m, ps);
    TextbookUnlessOvershoot(m, ps, ns);
  }

  lemma {:induction false} PlainMember(ps: seq<string>)
    ensures forall i :: 0 <= i < |Plain(ps)| ==> Plain(ps)[i] in ps && Plain(ps)[i] != STARS
  {
    if ps != [] {
      PlainMember(ps[1..]);
      assert forall p :: p in ps[1..] ==> p in ps;
    }
  }

  /** An overshoot: two one-star segments accept a one-name path. */
  lemma TwoStarsAcceptOneName(m: SegmentMatch)
    requires m("*", "a") && m("*", "")
    ensures Accepts(m, "*/*", "a")
    ensures !Textbook(m, ["*", "*"], ["a"])
  {
    assert Join(["*", "*"], '/') == "*/*" && Join(["a"], '/') == "a";
    AcceptsListed(m, ["*", "*"], ["a"]);
    assert ["*", "*"][1..] == ["*"] && ["a"][1..] == [] && ["*"][1..] == [];
  }

  // ---- patterns without a separator ---------------------------------------

  lemma {:induction false} LastSegmentJoin(ns: seq<string>)
    requires Names(ns) && ns != []
    ensures LastSegment(Join(ns, '/')) == ns[|ns| - 1]
  {
    hide Join, Index;
    JoinPop(ns);
    if |ns| >= 2 {
      LastSegmentJoin(ns[1..]);
      assert Join(ns, '/')[|ns[0]| + 1..] == Join(ns[1..], '/');
    }
  }

  // ---- the entry point ----------------------------------------------------

  lemma SlashesInJoin(ps: seq<string>)
    requires Segments(ps) && ps != []
    ensures '/' in Join(ps, '/') <==> |ps| >= 2
  {
    hide Index;
    JoinPop(ps);
    if |ps| >= 2 {
      assert Join(ps, '/')[|ps[0]|] == '/';
    }
  }

  /** A pattern of one segment matches exactly the paths, at any depth, whose last name it matches. */
  lemma OneSegmentMatchesLastName(m: SegmentMatch, p: string, ns: seq<string>)
    requires Segments([p]) && Names(ns) && ns != []
    ensures Matches(m, Join([p], '/'), Join(ns, '/')) <==> m(p, ns[|ns| - 1])
  {
    SlashesInJoin([p]);
    LastSegmentJoin(ns);
  }

  /** A longer pattern is the textbook relation on every path exactly when it cannot run past the end. */
  lemma LongerPatternsExactly(m: SegmentMatch, ps: seq<string>)
    requires StarLaw(m) && Segments(ps) && |ps| >= 2
    ensures (forall ns :: Names(ns) && ns != [] ==>
        (Matches(m, Join(ps, '/'), Join(ns, '/')) <==> Textbook(m, ps, ns)))
      <==> !RunsPastTheEnd(m, ps)
  {
    hide Textbook, Accepts, RunsPastTheEnd, StarLaw;
    SlashesInJoin(ps);
    TextbookExactlyUnlessOvershoot(m, ps);
  }
}
