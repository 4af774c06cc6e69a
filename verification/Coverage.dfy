/** internal/tools/coverage_index.go: the inverse index from covered lines to tests.
    Reading and parsing the profile is left out; records are its parsed lines. */
module Coverage {
  import opened Text

  datatype Record = Record(file: string, pkg: string, startLine: int, endLine: int)

  datatype TestRef = TestRef(pkg: string, testName: string)

  type Lines = map<int, set<string>>
  type Table = map<string, Lines>
  type Tests = map<string, seq<string>>

  // ---- file keys ----------------------------------------------------------

  /** f is the path itself or what follows one of its slashes. */
  ghost predicate SlashSuffix(f: string, path: string) {
    f == path || exists i :: 0 <= i < |path| - 1 && path[i] == '/' && f == path[i + 1..]
  }

  method FileKeysFor(profileFile: string) returns (keys: seq<string>)
    ensures forall f :: f in keys <==> SlashSuffix(f, profileFile)
  {
    keys := [profileFile];
    for i := 0 to |profileFile|
      invariant forall f :: f in keys <==>
        || f == profileFile
        || exists j :: 0 <= j < i && j < |profileFile| - 1 && profileFile[j] == '/' && f == profileFile[j + 1..]
    {
      if profileFile[i] == '/' && i + 1 < |profileFile| {
        keys := keys + [profileFile[i + 1..]];
      }
    }
  }

  // ---- qualified names ----------------------------------------------------

  function Qualified(pkg: string, test: string): string {
    pkg + ":" + test
  }

  /** splitQualifiedTestName: at the first colon. */
  function SplitName(name: string): TestRef {
    var i := Index(name, ':');
    if i == |name| then TestRef("", name) else TestRef(name[..i], name[i + 1..])
  }

  /** Qualifying and splitting is the identity exactly for colon-free packages. */
  lemma SplitQualified(pkg: string, test: string)
    ensures SplitName(Qualified(pkg, test)) == TestRef(pkg, test) <==> ':' !in pkg
  {
    var q := Qualified(pkg, test);
    assert q[|pkg|] == ':';
    if ':' !in pkg {
      IndexAt(q, ':', |pkg|);
      assert q[..|pkg|] == pkg && q[|pkg| + 1..] == test;
    } else {
      var j :| 0 <= j < |pkg| && pkg[j] == ':';
      assert q[j] == ':';
      assert Index(q, ':') <= j;
      assert |q[..Index(q, ':')]| < |pkg|;
    }
  }

  // ---- the table ----------------------------------------------------------

  function TestsIn(tests: Tests, pkg: string): seq<string> {
    if pkg in tests then tests[pkg] else []
  }

  function QualifiedAll(pkg: string, names: seq<string>): set<string> {
    set t | t in names :: Qualified(pkg, t)
  }

  function OnLine(byLine: Lines, ln: int): set<string> {
    if ln in byLine then byLine[ln] else {}
  }

  function InFile(table: Table, file: string): Lines {
    if file in table then table[file] else map[]
  }

  function At(table: Table, file: string, ln: int): set<string> {
    OnLine(InFile(table, file), ln)
  }

  /** What a record with the given tests adds to a line. */
  function Fan(rec: Record, names: seq<string>, ln: int): set<string> {
    if rec.startLine <= ln <= rec.endLine then QualifiedAll(rec.pkg, names) else {}
  }

  /** What one record adds for a file and line. */
  ghost function Contributed(rec: Record, tests: Tests, file: string, ln: int): set<string> {
    if SlashSuffix(file, rec.file) then Fan(rec, TestsIn(tests, rec.pkg), ln) else {}
  }

  ghost function CoveredBy(records: seq<Record>, tests: Tests, file: string, ln: int): set<string> {
    if records == [] then {}
    else CoveredBy(records[..|records| - 1], tests, file, ln) + Contributed(records[|records| - 1], tests, file, ln)
  }

  method AddTests(entry: set<string>, pkg: string, names: seq<string>) returns (entry': set<string>)
    ensures entry' == entry + QualifiedAll(pkg, names)
  {
    entry' := entry;
    for i := 0 to |names|
      invariant entry' == entry + QualifiedAll(pkg, names[..i])
    {
      assert names[..i + 1] == names[..i] + [names[i]];
      entry' := entry' + {Qualified(pkg, names[i])};
    }
    assert names[..|names|] == names;
  }

  /** The fan-out over one record's lines. */
  method AddLines(byLine: Lines, rec: Record, names: seq<string>) returns (r: Lines)
    requires rec.startLine <= rec.endLine
    ensures forall ln :: OnLine(r, ln) == OnLine(byLine, ln) + Fan(rec, names, ln)
  {
    r := byLine;
    for ln := rec.startLine to rec.endLine + 1
      invariant forall l :: OnLine(r, l) == OnLine(byLine, l) + (if l < ln then Fan(rec, names, l) else {})
    {
      var entry := AddTests(OnLine(r, ln), rec.pkg, names);
      r := r[ln := entry];
    }
  }

  /** One record under every key of its file. */
  method AddRecord(table: Table, rec: Record, names: seq<string>) returns (r: Table)
    requires rec.startLine <= rec.endLine
    ensures forall f, ln ::
      At(r, f, ln) == At(table, f, ln) + (if SlashSuffix(f, rec.file) then Fan(rec, names, ln) else {})
  {
    hide SlashSuffix, Fan;
    var keys := FileKeysFor(rec.file);
    r := table;
    for i := 0 to |keys|
      invariant forall f, ln :: At(r, f, ln) == At(table, f, ln) + (if f in keys[..i] then Fan(rec, names, ln) else {})
    {
      var key := keys[i];
      assert forall f :: f in keys[..i + 1] <==> f in keys[..i] || f == key;
      var lines := AddLines(InFile(r, key), rec, names);
      r := r[key := lines];
    }
    assert keys[..|keys|] == keys;
  }

  method BuildCoverageByFile(records: seq<Record>, tests: Tests) returns (out: Table)
    ensures forall f, ln :: At(out, f, ln) == CoveredBy(records, tests, f, ln)
  {
    hide SlashSuffix, At, Fan;
    out := map[];
    NothingCovered(tests);
    for i := 0 to |records|
      invariant forall f, ln :: At(out, f, ln) == CoveredBy(records[..i], tests, f, ln)
    {
      var rec := records[i];
      CoveredSnoc(records, tests, i);
      var names := TestsIn(tests, rec.pkg);
      if |names| == 0 {
        NothingAdded(rec, names);
        continue;
      }
      if rec.endLine < rec.startLine {
        NothingAdded(rec, names);
        continue;
      }
      out := AddRecord(out, rec, names);
    }
    assert records[..|records|] == records;
  }

  lemma NothingAdded(rec: Record, names: seq<string>)
    requires |names| == 0 || rec.endLine < rec.startLine
    ensures forall ln :: Fan(rec, names, ln) == {}
  {}

  lemma NothingCovered(tests: Tests)
    ensures forall f, ln :: At(map[], f, ln) == CoveredBy([], tests, f, ln)
  {}

  lemma CoveredSnoc(records: seq<Record>, tests: Tests, i: nat)
    requires i < |records|
    ensures forall f, ln ::
      CoveredBy(records[..i + 1], tests, f, ln)
        == CoveredBy(records[..i], tests, f, ln) + Contributed(records[i], tests, f, ln)
  {
    hide Contributed;
    assert records[..i + 1][..i] == records[..i];
  }

  // ---- the index ----------------------------------------------------------

  /** The declarative reading: some record with a non-inverted range has file as its path or a slash
      suffix of it, covers the line (any line when line <= 0), and the test ran in its package. */
  ghost predicate Covers(records: seq<Record>, tests: Tests, file: string, line: int, ref: TestRef) {
    exists i :: 0 <= i < |records| && RecordCovers(records[i], tests, file, line, ref)
  }

  ghost predicate RecordCovers(rec: Record, tests: Tests, file: string, line: int, ref: TestRef) {
    rec.pkg == ref.pkg && ref.testName in TestsIn(tests, rec.pkg) && Touches(rec, file, line)
  }

  ghost predicate Touches(rec: Record, file: string, line: int) {
    && rec.startLine <= rec.endLine && SlashSuffix(file, rec.file)
    && (line <= 0 || rec.startLine <= line <= rec.endLine)
  }

  /** The records that touch the line, and whose package has tests, have colon-free packages. */
  ghost predicate ColonFree(records: seq<Record>, tests: Tests, file: string, line: int) {
    forall i :: 0 <= i < |records| && Touches(records[i], file, line) && TestsIn(tests, records[i].pkg) != []
      ==> ':' !in records[i].pkg
  }

  class CoverageIndex {
    var byFile: Table
    // What was last ingested.
    ghost var records: seq<Record>
    ghost var tests: Tests

    ghost predicate Valid()
      reads this
    {
      forall f, ln :: At(byFile, f, ln) == CoveredBy(records, tests, f, ln)
    }

    constructor ()
      ensures Valid() && records == [] && tests == map[]
    {
      byFile, records, tests := map[], [], map[];
      new;
      NothingCovered(map[]);
    }

    /** Ingest after parsing: the stored index is replaced. */
    method Ingest(parsed: seq<Record>, testsByPackage: Tests)
      modifies this
      ensures Valid() && records == parsed && tests == testsByPackage
    {
      byFile := BuildCoverageByFile(parsed, testsByPackage);
      records, tests := parsed, testsByPackage;
    }

    /** The tests covering a line, or any line of the file when line <= 0. */
    method TestsCovering(file: string, line: int) returns (out: seq<TestRef>)
      requires Valid()
      ensures exists keys :: SortedListing(keys, Answer(byFile, file, line)) && out == Mapped(SplitName, keys)
    {
      if file !in byFile {
        assert SortedListing([], Answer(byFile, file, line)) && [] == Mapped(SplitName, []);
        return [];
      }
      var byLine := byFile[file];
      var seen: set<string> := {};
      var todo := byLine.Keys;
      while todo != {}
        invariant todo <= byLine.Keys
        invariant seen == Union(byLine, byLine.Keys - todo, line)
        decreases |todo|
      {
        NonEmpty(todo);
        var ln :| ln in todo;
        assert byLine.Keys - (todo - {ln}) == (byLine.Keys - todo) + {ln};
        todo := todo - {ln};
        if line > 0 && ln != line {
          continue;
        }
        seen := seen + byLine[ln];
      }
      assert byLine.Keys - todo == byLine.Keys;
      var keys := SortStrings(seen);
      out := Mapped(SplitName, keys);
    }
  }

  /** The names on the lines asked for. */
  function Union(byLine: Lines, lns: set<int>, line: int): set<string> {
    set ln, q | ln in lns && ln in byLine && (line <= 0 || ln == line) && q in byLine[ln] :: q
  }

  function Answer(table: Table, file: string, line: int): set<string> {
    Union(InFile(table, file), InFile(table, file).Keys, line)
  }

  lemma {:induction false} CoveredExact(records: seq<Record>, tests: Tests, file: string, ln: int, q: string)
    ensures q in CoveredBy(records, tests, file, ln)
      <==> exists i :: 0 <= i < |records| && q in Contributed(records[i], tests, file, ln)
  {
    hide Contributed;
    if records != [] {
      var n := |records| - 1;
      var before := records[..n];
      CoveredExact(before, tests, file, ln, q);
      if q in CoveredBy(before, tests, file, ln) {
        var i :| 0 <= i < |before| && q in Contributed(before[i], tests, file, ln);
        assert records[i] == before[i];
      }
      if i :| 0 <= i < |records| && q in Contributed(records[i], tests, file, ln) {
        assert i < n ==> before[i] == records[i];
      }
    }
  }

  lemma AnswerMember(table: Table, file: string, line: int, q: string)
    ensures q in Answer(table, file, line) <==> exists ln :: (line <= 0 || ln == line) && q in At(table, file, ln)
  {
    if q in Answer(table, file, line) {
      var ln :| ln in InFile(table, file) && (line <= 0 || ln == line) && q in InFile(table, file)[ln];
      assert q in At(table, file, ln);
    }
    if ln :| (line <= 0 || ln == line) && q in At(table, file, ln) {
      assert ln in InFile(table, file);
    }
  }

  ghost predicate NamesCovering(records: seq<Record>, tests: Tests, file: string, line: int, q: string) {
    exists ref :: Covers(records, tests, file, line, ref) && q == Qualified(ref.pkg, ref.testName)
  }

  /** A name is in the answer exactly when it qualifies a covering test. */
  lemma AnswerExact(table: Table, records: seq<Record>, tests: Tests, file: string, line: int, q: string)
    requires forall f, ln :: At(table, f, ln) == CoveredBy(records, tests, f, ln)
    ensures q in Answer(table, file, line) <==> NamesCovering(records, tests, file, line, q)
  {
    hide SlashSuffix, Qualified;
    AnswerMember(table, file, line, q);
    if q in Answer(table, file, line) {
      var ln :| (line <= 0 || ln == line) && q in At(table, file, ln);
      CoveredExact(records, tests, file, ln, q);
      var i :| 0 <= i < |records| && q in Contributed(records[i], tests, file, ln);
      var t :| t in TestsIn(tests, records[i].pkg) && q == Qualified(records[i].pkg, t);
      var ref := TestRef(records[i].pkg, t);
      assert RecordCovers(records[i], tests, file, line, ref);
    }
    if NamesCovering(records, tests, file, line, q) {
      var ref :| Covers(records, tests, file, line, ref) && q == Qualified(ref.pkg, ref.testName);
      var i :| 0 <= i < |records| && RecordCovers(records[i], tests, file, line, ref);
      var ln := if line <= 0 then records[i].startLine else line;
      assert q in Contributed(records[i], tests, file, ln);
      CoveredExact(records, tests, file, ln, q);
      assert q in At(table, file, ln);
    }
  }

  /** Splitting undoes itself on every qualified name, whatever colons it holds. */
  lemma SplitThenQualify(pkg: string, test: string)
    ensures var ref := SplitName(Qualified(pkg, test)); Qualified(ref.pkg, ref.testName) == Qualified(pkg, test)
    ensures ':' !in SplitName(Qualified(pkg, test)).pkg
  {
    var q := Qualified(pkg, test);
    assert q[|pkg|] == ':';
    var i := Index(q, ':');
    assert q == q[..i] + ":" + q[i + 1..];
  }

  /** What TestsCovering returns: every covering test with its name split again, nothing else, once
      each, in the order of the qualified names. */
  lemma TestsCoveringLists(table: Table, records: seq<Record>, tests: Tests, file: string, line: int,
      keys: seq<string>, out: seq<TestRef>)
    requires forall f, ln :: At(table, f, ln) == CoveredBy(records, tests, f, ln)
    requires SortedListing(keys, Answer(table, file, line)) && out == Mapped(SplitName, keys)
    ensures NoDup(out)
    ensures forall i, j ::
      0 <= i < j < |out| ==> Less(Qualified(out[i].pkg, out[i].testName), Qualified(out[j].pkg, out[j].testName))
    ensures forall ref ::
      ref in out ==> ':' !in ref.pkg && NamesCovering(records, tests, file, line, Qualified(ref.pkg, ref.testName))
    ensures forall ref :: Covers(records, tests, file, line, ref) ==> SplitName(Qualified(ref.pkg, ref.testName)) in out
  {
    hide Less, Answer, Covers, SplitName, Qualified;
    forall k | 0 <= k < |keys|
      ensures NamesCovering(records, tests, file, line, keys[k])
      ensures keys[k] == Qualified(out[k].pkg, out[k].testName) && ':' !in out[k].pkg
    {
      assert keys[k] in keys;
      AnswerExact(table, records, tests, file, line, keys[k]);
      var ref :| Covers(records, tests, file, line, ref) && keys[k] == Qualified(ref.pkg, ref.testName);
      SplitThenQualify(ref.pkg, ref.testName);
    }
    forall ref | Covers(records, tests, file, line, ref)
      ensures SplitName(Qualified(ref.pkg, ref.testName)) in out
    {
      var q := Qualified(ref.pkg, ref.testName);
      AnswerExact(table, records, tests, file, line, q);
      assert q in keys;
      var k :| 0 <= k < |keys| && keys[k] == q;
      assert out[k] == SplitName(q);
    }
    forall i, j | 0 <= i < j < |out| ensures Less(keys[i], keys[j]) {
      LessTrichotomy(keys[i], keys[j]);
    }
  }

  lemma ColonFreeCovered(records: seq<Record>, tests: Tests, file: string, line: int, ref: TestRef)
    requires ColonFree(records, tests, file, line) && Covers(records, tests, file, line, ref)
    ensures SplitName(Qualified(ref.pkg, ref.testName)) == ref
  {
    hide SplitName, Qualified, Touches;
    SplitQualified(ref.pkg, ref.testName);
  }

  lemma ColonFreeNamed(records: seq<Record>, tests: Tests, file: string, line: int, ref: TestRef)
    requires ColonFree(records, tests, file, line) && ':' !in ref.pkg
    requires NamesCovering(records, tests, file, line, Qualified(ref.pkg, ref.testName))
    ensures Covers(records, tests, file, line, ref)
  {
    hide SplitName, Qualified, Covers, ColonFree;
    var from :| Covers(records, tests, file, line, from)
      && Qualified(ref.pkg, ref.testName) == Qualified(from.pkg, from.testName);
    ColonFreeCovered(records, tests, file, line, from);
    SplitQualified(ref.pkg, ref.testName);
  }

  lemma ColonCovered(records: seq<Record>, tests: Tests, file: string, line: int) returns (ref: TestRef)
    requires !ColonFree(records, tests, file, line)
    ensures Covers(records, tests, file, line, ref) && ':' in ref.pkg
  {
    hide Touches;
    var i :| 0 <= i < |records| && Touches(records[i], file, line) && TestsIn(tests, records[i].pkg) != []
      && ':' in records[i].pkg;
    ref := TestRef(records[i].pkg, TestsIn(tests, records[i].pkg)[0]);
    assert RecordCovers(records[i], tests, file, line, ref);
  }

  /** The answer is exactly the covering tests if and only if the packages it touches are colon-free. */
  lemma TestsCoveringExact(table: Table, records: seq<Record>, tests: Tests, file: string, line: int,
      keys: seq<string>, out: seq<TestRef>)
    requires forall f, ln :: At(table, f, ln) == CoveredBy(records, tests, f, ln)
    requires SortedListing(keys, Answer(table, file, line)) && out == Mapped(SplitName, keys)
    ensures (forall ref ::
      ref in out <==> Covers(records, tests, file, line, ref)) <==> ColonFree(records, tests, file, line)
  {
    hide Answer, SplitName, Qualified, SortedListing, At, CoveredBy, Covers, ColonFree, NamesCovering, Mapped, Less;
    TestsCoveringLists(table, records, tests, file, line, keys, out);
    if ColonFree(records, tests, file, line) {
      forall ref | Covers(records, tests, file, line, ref) ensures ref in out {
        ColonFreeCovered(records, tests, file, line, ref);
      }
      forall ref | ref in out ensures Covers(records, tests, file, line, ref) {
        ColonFreeNamed(records, tests, file, line, ref);
      }
    } else {
      var ref := ColonCovered(records, tests, file, line);
      assert ref !in out;
    }
  }
}
