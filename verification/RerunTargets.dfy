/** internal/tools/run_failing_tests.go: which tests a rerun is aimed at. */
module RerunTargets {
  import opened Text
  import Coverage
  import opened GoTestFailures

  /** The part of a name before its first slash: the parent test of a subtest. */
  function Parent(name: string): string {
    name[..Index(name, '/')]
  }

  /** The package and parent test a failure name is read as; None when it is skipped. */
  function Target(testName: string): Option<Coverage.TestRef> {
    var ref := Coverage.SplitName(testName);
    if testName == "" || Parent(ref.testName) == "" then None
    else Some(Coverage.TestRef(ref.pkg, Parent(ref.testName)))
  }

  /** The tests to rerun. */
  function TestsOf(failures: seq<TestFailure>): set<string> {
    set i | 0 <= i < |failures| && Target(failures[i].testName).Some? :: Target(failures[i].testName).value.testName
  }

  /** The packages to rerun them in. */
  function PackagesOf(failures: seq<TestFailure>): set<string> {
    set i | 0 <= i < |failures| && Target(failures[i].testName).Some? && Target(failures[i].testName).value.pkg != ""
      :: Target(failures[i].testName).value.pkg
  }

  method ExtractRerunTargets(failures: seq<TestFailure>) returns (tests: seq<string>, pkgs: seq<string>)
    ensures SortedListing(tests, TestsOf(failures)) && SortedListing(pkgs, PackagesOf(failures))
  {
    var testSet: set<string>, pkgSet: set<string> := {}, {};
    for i := 0 to |failures|
      invariant testSet == TestsOf(failures[..i]) && pkgSet == PackagesOf(failures[..i])
    {
      var name := failures[i].testName;
      TargetsSnoc(failures, i);
      if name == "" {
        continue;
      }
      var ref := Coverage.SplitName(name);
      var parent := Parent(ref.testName);
      if parent == "" {
        continue;
      }
      testSet := testSet + {parent};
      if ref.pkg != "" {
        pkgSet := pkgSet + {ref.pkg};
      }
    }
    assert failures[..|failures|] == failures;
    tests := SortStrings(testSet);
    pkgs := SortStrings(pkgSet);
  }

  lemma TargetsSnoc(failures: seq<TestFailure>, k: nat)
    requires k < |failures|
    ensures var t := Target(failures[k].testName);
      && TestsOf(failures[..k + 1]) == TestsOf(failures[..k]) + (if t.Some? then {t.value.testName} else {})
      && PackagesOf(failures[..k + 1])
           == PackagesOf(failures[..k]) + (if t.Some? && t.value.pkg != "" then {t.value.pkg} else {})
  {
    hide Target;
    var before, after := failures[..k], failures[..k + 1];
    assert after[k] == failures[k];
    forall i | 0 <= i < k ensures after[i] == before[i] {}
    var t := Target(failures[k].testName);
    forall x ensures x in TestsOf(after) <==> x in TestsOf(before) || (t.Some? && x == t.value.testName) {
      if x in TestsOf(before) {
        var i :| 0 <= i < k && Target(before[i].testName).Some? && x == Target(before[i].testName).value.testName;
        assert after[i] == before[i];
      }
    }
    forall x
      ensures x in PackagesOf(after) <==> x in PackagesOf(before) || (t.Some? && t.value.pkg != "" && x == t.value.pkg)
    {
      if x in PackagesOf(before) {
        var i :| 0 <= i < k && Target(before[i].testName).Some? && Target(before[i].testName).value.pkg != ""
          && x == Target(before[i].testName).value.pkg;
        assert after[i] == before[i];
      }
    }
  }

  // ---- the rerun ----------------------------------------------------------

  const MAX_PACKAGES := 10

  datatype Scope = Everywhere | Packages(pkgs: seq<string>)

  /** The tests a rerun names and where it looks for them. */
  datatype Plan = Plan(tests: seq<string>, scope: Scope)

  function Argv(plan: Plan): seq<string> {
    ["go", "test", "-json", "-count=1", "-run", "^(" + Join(plan.tests, '|') + ")$"]
    + if plan.scope.Packages? then plan.scope.pkgs else ["./..."]
  }

  /** The first tests up to the limit, in the packages named, or everywhere when none or too many are. */
  ghost predicate Planned(failures: seq<TestFailure>, limit: int, plan: Plan) {
    && (exists all :: SortedListing(all, TestsOf(failures)) && plan.tests == Limited(all, limit))
    && (plan.scope.Packages? <==> 0 < |PackagesOf(failures)| <= MAX_PACKAGES)
    && (plan.scope.Packages? ==> SortedListing(plan.scope.pkgs, PackagesOf(failures)))
  }

  method ComposeGoRerunArgv(failures: seq<TestFailure>, limit: int) returns (argv: seq<string>, ghost plan: Plan)
    ensures argv == [] <==> TestsOf(failures) == {}
    ensures argv != [] ==> Planned(failures, limit, plan) && argv == Argv(plan)
  {
    argv, plan := [], Plan([], Everywhere);
    if |failures| == 0 {
      return;
    }
    var tests, pkgs := ExtractRerunTargets(failures);
    ListingSize(tests, TestsOf(failures));
    ListingSize(pkgs, PackagesOf(failures));
    if |tests| == 0 {
      return;
    }
    ghost var all := tests;
    if limit > 0 && |tests| > limit {
      tests := tests[..limit];
    }
    assert tests == Limited(all, limit);
    argv := ["go", "test", "-json", "-count=1", "-run", "^(" + Join(tests, '|') + ")$"];
    if |pkgs| > 0 && |pkgs| <= MAX_PACKAGES {
      argv := argv + pkgs;
      plan := Plan(tests, Packages(pkgs));
    } else {
      argv := argv + ["./..."];
      plan := Plan(tests, Everywhere);
    }
  }

  /** The rerun runs the parent test of k, in k's own package. */
  predicate Selects(plan: Plan, k: TestKey) {
    Parent(k.test) in plan.tests && (plan.scope.Packages? ==> k.pkg in plan.scope.pkgs)
  }

  /** A test is rerun exactly when some name is read as its parent test, the limit does not cut that off,
      and its package is named, or none is, or too many are. */
  lemma SelectedExactly(failures: seq<TestFailure>, limit: int, plan: Plan, k: TestKey)
    requires Planned(failures, limit, plan)
    ensures Selects(plan, k)
      <==> && Parent(k.test) in TestsOf(failures)
           && (limit <= 0 || |Below(TestsOf(failures), Parent(k.test))| < limit)
           && (k.pkg in PackagesOf(failures) || PackagesOf(failures) == {} || |PackagesOf(failures)| > 10)
  {
    hide TestsOf, PackagesOf, Below, Parent;
    var all :| SortedListing(all, TestsOf(failures)) && plan.tests == Limited(all, limit);
    LimitedListing(all, TestsOf(failures), limit, Parent(k.test));
    hide SortedListing, Limited;
    if plan.scope.Packages? {
      Listed(plan.scope.pkgs, PackagesOf(failures));
    }
  }

  lemma Listed(keys: seq<string>, ks: set<string>)
    requires SortedListing(keys, ks)
    ensures forall k :: k in keys <==> k in ks
  {}

  /** The name of failed test l is read as test `test` of package `pkg`. */
  predicate ReadAs(l: TestKey, pkg: string, test: string) {
    Target(TestName(l)) == Some(Coverage.TestRef(pkg, test))
  }

  /** The target sets, read off the failed tests. */
  lemma TargetsOfEvents(events: seq<Event>, describe: seq<string> -> Detail)
    ensures forall x ::
      x in TestsOf(Failures(events, describe)) <==> exists l, pkg :: l in FailedKeys(events) && ReadAs(l, pkg, x)
    ensures forall x ::
      x in PackagesOf(Failures(events, describe)) <==>
        x != "" && exists l, test :: l in FailedKeys(events) && ReadAs(l, x, test)
  {
    hide FailedKeys, TestName, Target;
    var keys, failures := FailedKeys(events), Failures(events, describe);
    assert |failures| == |keys|;
    forall i | 0 <= i < |keys| ensures failures[i].testName == TestName(keys[i]) && keys[i] in keys {}
    hide Failures;
    forall x | x in TestsOf(failures) ensures exists l, pkg :: l in keys && ReadAs(l, pkg, x) {
      var i :| 0 <= i < |failures| && Target(failures[i].testName).Some?
        && Target(failures[i].testName).value.testName == x;
      assert ReadAs(keys[i], Target(failures[i].testName).value.pkg, x);
    }
    forall x | x in PackagesOf(failures) ensures x != "" && exists l, test :: l in keys && ReadAs(l, x, test) {
      var i :| 0 <= i < |failures| && Target(failures[i].testName).Some?
        && Target(failures[i].testName).value.pkg != "" && Target(failures[i].testName).value.pkg == x;
      assert ReadAs(keys[i], x, Target(failures[i].testName).value.testName);
    }
    forall l, pkg, test | l in keys && ReadAs(l, pkg, test)
      ensures test in TestsOf(failures) && (pkg != "" ==> pkg in PackagesOf(failures))
    {
      var i :| 0 <= i < |keys| && keys[i] == l;
      assert Target(failures[i].testName).Some?;
    }
  }

  // ---- the names failures are given ---------------------------------------

  /** Where two readings of one string disagree. */
  lemma ColonIsNoSlash(k: TestKey)
    ensures TestName(k) != k.pkg + ":" + k.test
  {
    TestNameExact(k);
    if NUL !in k.pkg {
      assert TestName(k)[|k.pkg|] == '/' && (k.pkg + ":" + k.test)[|k.pkg|] == ':';
    } else {
      NameAtNul(k);
      var i := Index(k.pkg, NUL);
      assert (k.pkg + ":" + k.test)[i] == NUL;
    }
  }

  lemma NameAtNul(k: TestKey)
    requires NUL in k.pkg
    ensures Index(k.pkg, NUL) < |k.pkg|
    ensures Index(k.pkg, NUL) < |TestName(k)| && TestName(k)[Index(k.pkg, NUL)] == '/'
  {
    var i := Index(k.pkg, NUL);
    var j :| 0 <= j < |k.pkg| && k.pkg[j] == NUL;
    var t := k.pkg + [NUL] + k.test;
    assert KeySentinel(k)[1..] == t;
    assert t[i] == NUL && forall x :: 0 <= x < i ==> t[x] == k.pkg[x];
    IndexAt(t, NUL, i);
  }

  /** No failure name is ever split back into the package and test it was made from. */
  lemma FailureNamesNeverSplitBack(k: TestKey)
    ensures Coverage.SplitName(TestName(k)) != Coverage.TestRef(k.pkg, k.test)
  {
    hide TestName, KeySentinel, SplitKeySentinel;
    var name := TestName(k);
    var i := Index(name, ':');
    if i == |name| {
      if k.pkg == "" {
        TestNameExact(k);
        assert |name| == |k.test| + 1;
      }
    } else {
      assert name == name[..i] + ":" + name[i + 1..];
      ColonIsNoSlash(k);
    }
  }

  /** Read on its own, no failure's name points to the package of the test it names. */
  lemma NameMissesItsPackage(k: TestKey)
    ensures Target(TestName(k)).Some? ==> Target(TestName(k)).value.pkg != k.pkg
  {
    hide TestName, KeySentinel, SplitKeySentinel;
    var name := TestName(k);
    TestNameExact(k);
    var i := Index(name, ':');
    if i == |name| {
      if k.pkg == "" {
        assert name[0] == '/';
        IndexAt(name, '/', 0);
      }
    } else if NUL in k.pkg {
      NameAtNul(k);
      var j := Index(k.pkg, NUL);
      assert j < i ==> name[..i][j] == name[j];
      assert name[..i] != k.pkg;
    } else {
      assert name[|k.pkg|] == '/';
      assert name[..i] != k.pkg;
    }
  }

  /** The first component of a package path. */
  function FirstComponent(pkg: string): string {
    pkg[..Index(pkg, '/')]
  }

  /** Without a colon in its name a failure is rerun as a test called like the first component of its
      package path, in no package, and not at all when that component is empty. */
  lemma ColonFreeTarget(k: TestKey)
    requires NUL !in k.pkg && ':' !in k.pkg && ':' !in k.test
    ensures Target(TestName(k))
         == if FirstComponent(k.pkg) == "" then None else Some(Coverage.TestRef("", FirstComponent(k.pkg)))
  {
    hide TestName;
    TestNameExact(k);
    var name := TestName(k);
    assert ':' !in name;
    IndexAt(name, ':', |name|);
    assert name[..|name|] == name;
    var i := Index(k.pkg, '/');
    IndexAt(name, '/', i);
    assert name[..i] == k.pkg[..i];
  }

  /** So after a run whose names are colon-free the rerun filter is the first components of the failed
      tests' packages, and no package is named. */
  lemma ColonFreeRerun(events: seq<Event>, describe: seq<string> -> Detail)
    requires forall k :: k in FailedKeys(events) ==> NUL !in k.pkg && ':' !in k.pkg && ':' !in k.test
    ensures PackagesOf(Failures(events, describe)) == {}
    ensures TestsOf(Failures(events, describe))
         == set k | k in FailedKeys(events) && FirstComponent(k.pkg) != "" :: FirstComponent(k.pkg)
  {
    hide FailedKeys, TestName, Target, FirstComponent;
    var keys := FailedKeys(events);
    var failures := Failures(events, describe);
    forall i | 0 <= i < |keys|
      ensures Target(failures[i].testName)
           == (if FirstComponent(keys[i].pkg) == "" then None
               else Some(Coverage.TestRef("", FirstComponent(keys[i].pkg))))
    {
      assert keys[i] in keys;
      ColonFreeTarget(keys[i]);
    }
    forall k | k in keys && FirstComponent(k.pkg) != "" ensures FirstComponent(k.pkg) in TestsOf(failures) {
      var i :| 0 <= i < |keys| && keys[i] == k;
      assert Target(failures[i].testName).Some?;
    }
  }

  // ---- which failed tests are rerun ---------------------------------------

  /** With colon-free names, a failed test is rerun exactly when its parent test is called like the first
      component of some failed test's package path, and the limit does not cut that name off. */
  lemma RerunExactly(events: seq<Event>, describe: seq<string> -> Detail, limit: int, plan: Plan, k: TestKey)
    requires forall l :: l in FailedKeys(events) ==> NUL !in l.pkg && ':' !in l.pkg && ':' !in l.test
    requires Planned(Failures(events, describe), limit, plan)
    ensures Selects(plan, k)
      <==> && Parent(k.test) != ""
           && (exists l :: l in FailedKeys(events) && FirstComponent(l.pkg) == Parent(k.test))
           && (limit <= 0 || |Below(TestsOf(Failures(events, describe)), Parent(k.test))| < limit)
  {
    hide FailedKeys, Failures, TestsOf, PackagesOf, Selects, Planned, Below, FirstComponent, Parent;
    ColonFreeRerun(events, describe);
    SelectedExactly(Failures(events, describe), limit, plan, k);
  }

  /** The usual case is missed: a single failure, in a package whose path does not begin with the name
      of the test, is not rerun. */
  lemma SingleFailureMissed(k: TestKey, describe: seq<string> -> Detail, limit: int, plan: Plan)
    requires k.test != "" && NUL !in k.pkg && ':' !in k.pkg && ':' !in k.test
    requires FirstComponent(k.pkg) != Parent(k.test)
    requires Planned(Failures([FailEvent(k)], describe), limit, plan)
    ensures !Selects(plan, k)
  {
    hide FailedKeys, Failures, Selects, Planned, FirstComponent, Parent, TestsOf;
    OneFailed(k);
    RerunExactly([FailEvent(k)], describe, limit, plan, k);
  }

  function FailEvent(k: TestKey): Event {
    Event("fail", k.pkg, k.test, "")
  }

  lemma OneFailed(k: TestKey)
    requires k.test != ""
    ensures forall l :: l in FailedKeys([FailEvent(k)]) <==> l == k
  {
    hide FailedKeys;
    FailedKeysExact([FailEvent(k)]);
    assert KeyOf([FailEvent(k)][0]) == k;
  }

  /** It can be hit: a single failure in a package whose path begins with the name of the test. */
  lemma SingleFailureHit(k: TestKey, describe: seq<string> -> Detail, plan: Plan)
    requires k.test != "" && NUL !in k.pkg && ':' !in k.pkg && ':' !in k.test
    requires FirstComponent(k.pkg) == Parent(k.test) != ""
    requires Planned(Failures([FailEvent(k)], describe), 0, plan)
    ensures Selects(plan, k)
  {
    hide FailedKeys, Failures, Selects, Planned, FirstComponent, Parent, TestsOf;
    OneFailed(k);
    RerunExactly([FailEvent(k)], describe, 0, plan, k);
  }

  /** With a colon in its name one failure can point to the package and test of another: the name of
      test mid:t in package p is read as test t of package p/mid. */
  lemma AnotherNameHits(p: string, mid: string, t: string)
    requires NUL !in p && ':' !in p && ':' !in mid && Parent(t) != ""
    ensures Target(TestName(TestKey(p, mid + ":" + t))) == Some(Coverage.TestRef(p + "/" + mid, Parent(t)))
  {
    hide Parent, TestName;
    var l := TestKey(p, mid + ":" + t);
    TestNameExact(l);
    var name := TestName(l);
    Coverage.SplitQualified(p + "/" + mid, t);
    assert name == p + "/" + mid + ":" + t;
  }

  /** So test t of package p/mid is rerun in its own package when test mid:t of package p failed too. */
  lemma HitThroughAnother(events: seq<Event>, describe: seq<string> -> Detail, plan: Plan,
      p: string, mid: string, t: string)
    requires NUL !in p && ':' !in p && ':' !in mid && Parent(t) != ""
    requires TestKey(p, mid + ":" + t) in FailedKeys(events)
    requires Planned(Failures(events, describe), 0, plan)
    ensures Selects(plan, TestKey(p + "/" + mid, t))
  {
    hide FailedKeys, Failures, Planned, Selects, TestsOf, PackagesOf, Target, Parent, TestName;
    var l := TestKey(p, mid + ":" + t);
    AnotherNameHits(p, mid, t);
    assert ReadAs(l, p + "/" + mid, Parent(t));
    TargetsOfEvents(events, describe);
    SelectedExactly(Failures(events, describe), 0, plan, TestKey(p + "/" + mid, t));
  }
}
