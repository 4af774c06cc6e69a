/** internal/workspace/workspace.go: path containment over a finite file system with symlinks.
    The kernel's os.Lstat and Go's filepath.EvalSymlinks each give up after a number of links of their
    own; `kernel` and `library` are those two numbers. */
module Workspace {
  import opened Text

  /** An absolute path as its list of components; [] is the root directory. */
  type Path = seq<string>

  datatype Node = Dir | File | Link(target: string)

  type FS = map<Path, Node>

  predicate Name(c: string) {
    c != "" && c != "." && c != ".." && '/' !in c
  }

  ghost predicate Proper(p: Path) {
    forall k :: 0 <= k < |p| ==> Name(p[k])
  }

  /** Every entry is properly named and sits in a directory. */
  ghost predicate WellFormed(fs: FS) {
    && [] in fs && fs[[]] == Dir
    && (forall p :: p in fs ==> Proper(p))
    && (forall p :: p in fs && p != [] ==> p[..|p| - 1] in fs && fs[p[..|p| - 1]] == Dir)
  }

  /** An existing entry that is not itself a symlink. */
  predicate Real(fs: FS, p: Path) {
    p in fs && !fs[p].Link?
  }

  // ---- what the operating system does -------------------------------------

  function TargetBase(at: Path, target: string): Path {
    if target != "" && target[0] == '/' then [] else at
  }

  /** Following rest from directory or file at, expanding at most `links` symlinks. */
  function Walk(fs: FS, at: Path, rest: seq<string>, links: nat): Option<Path>
    decreases links, |rest|
  {
    if rest == [] then Some(at)
    else if at !in fs || !fs[at].Dir? then None
    else if rest[0] == "" || rest[0] == "." then Walk(fs, at, rest[1..], links)
    else if rest[0] == ".." then Walk(fs, if at == [] then [] else at[..|at| - 1], rest[1..], links)
    else
      var next := at + [rest[0]];
      if next !in fs then None
      else match fs[next]
        case Link(target) =>
          if links == 0 then None
          else Walk(fs, TargetBase(at, target), Split(target, '/') + rest[1..], links - 1)
        case _ => Walk(fs, next, rest[1..], links)
  }

  function EvalSymlinks(fs: FS, p: Path, links: nat): Option<Path> {
    Walk(fs, [], p, links)
  }

  /** os.Lstat succeeds: the parent resolves to a directory that has the last component. */
  predicate Lstat(fs: FS, p: Path, links: nat) {
    p == [] ||
    match EvalSymlinks(fs, p[..|p| - 1], links)
    case None => false
    case Some(d) => d in fs && fs[d].Dir? && d + [p[|p| - 1]] in fs
  }

  // ---- lexical cleaning ---------------------------------------------------

  function CleanStep(p: Path, c: string): Path {
    if c == "" || c == "." then p
    else if c == ".." then if p == [] then [] else p[..|p| - 1]
    else p + [c]
  }

  /** filepath.Clean of an absolute path. */
  function Clean(comps: seq<string>): Path {
    if comps == [] then [] else CleanStep(Clean(comps[..|comps| - 1]), comps[|comps| - 1])
  }

  function Show(p: Path): string {
    "/" + Join(p, '/')
  }

  /** The components of a path argument: absolute, or joined to the workspace root. */
  function Components(root: Path, p: string): seq<string> {
    if p != "" && p[0] == '/' then Split(p, '/') else root + Split(p, '/')
  }

  // ---- filepath.Rel -------------------------------------------------------

  function Common(a: Path, b: Path): nat {
    if a != [] && b != [] && a[0] == b[0] then 1 + Common(a[1..], b[1..]) else 0
  }

  function Ups(n: nat): Path {
    if n == 0 then [] else [".."] + Ups(n - 1)
  }

  function Rel(base: Path, target: Path): Path
  {
    CommonBound(base, target);
    Ups(|base| - Common(base, target)) + target[Common(base, target)..]
  }

  lemma {:induction false} CommonBound(a: Path, b: Path)
    ensures Common(a, b) <= |a| && Common(a, b) <= |b|
    ensures a[..Common(a, b)] == b[..Common(a, b)]
    ensures Common(a, b) == |a| <==> a <= b
  {
    if a != [] && b != [] && a[0] == b[0] {
      CommonBound(a[1..], b[1..]);
      var n := Common(a[1..], b[1..]);
      assert a == [a[0]] + a[1..] && b == [b[0]] + b[1..];
      assert a[..n + 1] == [a[0]] + a[1..][..n] && b[..n + 1] == [b[0]] + b[1..][..n];
    }
  }

  predicate Escapes(rel: Path) {
    rel != [] && rel[0] == ".."
  }

  lemma EscapesExactly(base: Path, target: Path)
    requires Proper(target)
    ensures Escapes(Rel(base, target)) <==> !(base <= target)
  {
    CommonBound(base, target);
  }

  // ---- Resolve ------------------------------------------------------------

  datatype Outcome = Resolved(path: Path) | Unresolvable | Outside

  function Reversed(s: seq<string>): seq<string> {
    if s == [] then [] else [s[|s| - 1]] + Reversed(s[..|s| - 1])
  }

  method EvalSymlinksAllowMissing(fs: FS, p: Path, kernel: nat, library: nat) returns (r: Option<Path>)
    requires WellFormed(fs) && Proper(p)
    ensures r == ResolveMissing(fs, p, kernel, library)
  {
    hide Lstat, EvalSymlinks, WellFormed, Real, Deepest, Reversed;
    var cur, missing := p, [];
    MissingStart(p);
    while true
      invariant cur <= p && p[|cur|..] == Reversed(missing)
      invariant Proper(missing)
      invariant Deepest(fs, cur, kernel) == Deepest(fs, p, kernel)
      decreases |cur|
    {
      DeepestSteps(fs, p, cur, kernel);
      if Lstat(fs, cur, kernel) {
        var e := EvalSymlinks(fs, cur, library);
        if e.None? {
          return None;
        }
        EvalProper(fs, cur, library);
        var resolved := Rejoin(e.value, missing);
        return Some(resolved);
      }
      MissingStep(p, cur, missing);
      missing := missing + [cur[|cur| - 1]];
      cur := cur[..|cur| - 1];
    }
  }

  lemma MissingStart(p: Path)
    ensures p <= p && p[|p|..] == Reversed([])
  {}

  lemma MissingStep(p: Path, cur: Path, missing: seq<string>)
    requires cur <= p && cur != [] && p[|cur|..] == Reversed(missing)
    ensures cur[..|cur| - 1] <= p && cur[|cur| - 1] == p[|cur| - 1]
    ensures p[|cur| - 1..] == Reversed(missing + [cur[|cur| - 1]])
  {
    assert (missing + [cur[|cur| - 1]])[..|missing|] == missing;
  }

  /** The inner loop: the missing components, last collected first, joined back on. */
  method Rejoin(start: Path, missing: seq<string>) returns (resolved: Path)
    requires Proper(start) && Proper(missing)
    ensures resolved == start + Reversed(missing)
  {
    resolved := start;
    var i := |missing| - 1;
    assert missing[..i + 1] == missing;
    while i >= 0
      invariant -1 <= i < |missing|
      invariant Proper(resolved)
      invariant resolved + Reversed(missing[..i + 1]) == start + Reversed(missing)
    {
      CleanProper(resolved + [missing[i]]);
      assert missing[..i + 1][..i] == missing[..i];
      resolved := Clean(resolved + [missing[i]]);
      i := i - 1;
    }
  }

  lemma DeepestSteps(fs: FS, p: Path, cur: Path, links: nat)
    requires cur <= p && Deepest(fs, cur, links) == Deepest(fs, p, links)
    ensures p[..|cur|] == cur
    ensures Lstat(fs, cur, links) ==> Deepest(fs, p, links) == |cur|
    ensures !Lstat(fs, cur, links) ==> cur != [] && Deepest(fs, cur[..|cur| - 1], links) == Deepest(fs, p, links)
  {
    assert cur[..|cur|] == cur;
  }

  lemma EvalProper(fs: FS, p: Path, links: nat)
    requires WellFormed(fs)
    ensures EvalSymlinks(fs, p, links).Some? ==> Proper(EvalSymlinks(fs, p, links).value)
  {
    hide Walk;
    WalkReal(fs, [], p, links);
  }

  method Resolve(fs: FS, root: Path, p: string, kernel: nat, library: nat) returns (r: Outcome)
    requires WellFormed(fs)
    requires Real(fs, root) && fs[root].Dir?
    ensures r == Containment(fs, root, p, kernel, library)
  {
    var cleaned := Clean(Components(root, p));
    CleanIsProper(Components(root, p), root, p, fs);
    var resolved := EvalSymlinksAllowMissing(fs, cleaned, kernel, library);
    if resolved.None? {
      return Unresolvable;
    }
    ResolvedSplit(fs, cleaned, kernel, library);
    EscapesExactly(root, resolved.value);
    var rel := Rel(root, resolved.value);
    if Escapes(rel) {
      return Outside;
    }
    return Resolved(resolved.value);
  }

  /** Length of the longest prefix the kernel sees. */
  function Deepest(fs: FS, p: Path, links: nat): (n: nat)
    ensures n <= |p| && Lstat(fs, p[..n], links)
    ensures forall j :: n < j <= |p| ==> !Lstat(fs, p[..j], links)
  {
    assert p[..|p|] == p;
    if p == [] || Lstat(fs, p, links) then |p|
    else
      assert forall j :: 0 <= j <= |p| - 1 ==> p[..|p| - 1][..j] == p[..j];
      Deepest(fs, p[..|p| - 1], links)
  }

  /** Resolve the deepest prefix the kernel sees, keep the rest verbatim. */
  function ResolveMissing(fs: FS, p: Path, kernel: nat, library: nat): Option<Path> {
    var n := Deepest(fs, p, kernel);
    match EvalSymlinks(fs, p[..n], library)
    case None => None
    case Some(q) => Some(q + p[n..])
  }

  /** What Resolve computes: the resolved path when it lies under the root, otherwise an error. */
  function Containment(fs: FS, root: Path, p: string, kernel: nat, library: nat): Outcome {
    match ResolveMissing(fs, Clean(Components(root, p)), kernel, library)
    case None => Unresolvable
    case Some(r) => if root <= r then Resolved(r) else Outside
  }

  // ---- lemmas -------------------------------------------------------------

  lemma {:induction false} CleanProper(p: Path)
    requires Proper(p)
    ensures Clean(p) == p
  {
    if p != [] {
      CleanProper(p[..|p| - 1]);
      assert p == p[..|p| - 1] + [p[|p| - 1]];
    }
  }

  lemma {:induction false} CleanSlashless(comps: seq<string>)
    requires forall k :: 0 <= k < |comps| ==> '/' !in comps[k]
    ensures Proper(Clean(comps))
  {
    if comps != [] {
      CleanSlashless(comps[..|comps| - 1]);
    }
  }

  lemma CleanIsProper(comps: seq<string>, root: Path, p: string, fs: FS)
    requires WellFormed(fs) && root in fs && comps == Components(root, p)
    ensures Proper(Clean(comps))
  {
    var parts := Split(p, '/');
    forall k | 0 <= k < |parts| ensures '/' !in parts[k] {
      assert parts[k] in parts;
    }
    CleanSlashless(comps);
  }

  /** Resolution only ever arrives at real entries. */
  lemma {:induction false} WalkReal(fs: FS, at: Path, rest: seq<string>, links: nat)
    requires WellFormed(fs) && Real(fs, at)
    ensures Walk(fs, at, rest, links).Some? ==> Real(fs, Walk(fs, at, rest, links).value)
    decreases links, |rest|
  {
    if rest != [] && fs[at].Dir? {
      if rest[0] == "" || rest[0] == "." {
        WalkReal(fs, at, rest[1..], links);
      } else if rest[0] == ".." {
        WalkReal(fs, if at == [] then [] else at[..|at| - 1], rest[1..], links);
      } else {
        var next := at + [rest[0]];
        if next in fs {
          match fs[next]
          case Link(target) =>
            if links > 0 {
              WalkReal(fs, TargetBase(at, target), Split(target, '/') + rest[1..], links - 1);
            }
          case _ =>
            WalkReal(fs, next, rest[1..], links);
        }
      }
    }
  }

  lemma {:induction false} Ancestors(fs: FS, p: Path, n: nat)
    requires WellFormed(fs) && p in fs && n <= |p|
    ensures p[..n] in fs
    ensures n < |p| ==> fs[p[..n]] == Dir
  {
    assert p[..|p|] == p;
    if n < |p| {
      var parent := p[..|p| - 1];
      Ancestors(fs, parent, n);
      assert parent[..n] == p[..n] && parent[..|parent|] == parent;
    }
  }

  lemma WalkStep(fs: FS, at: Path, c: string, rest: seq<string>, links: nat)
    requires at in fs && fs[at].Dir? && Name(c) && Real(fs, at + [c])
    ensures Walk(fs, at, [c] + rest, links) == Walk(fs, at + [c], rest, links)
  {
    assert ([c] + rest)[1..] == rest;
  }

  /** Walking along a real directory path goes where the path says. */
  lemma {:induction false} WalkAlong(fs: FS, at: Path, along: Path, rest: seq<string>, links: nat)
    requires WellFormed(fs) && Real(fs, at + along)
    ensures Walk(fs, at, along + rest, links) == Walk(fs, at + along, rest, links)
    decreases |along|
  {
    hide Walk, WellFormed;
    var whole := at + along;
    if along == [] {
      assert along + rest == rest && whole == at;
    } else {
      var next := at + [along[0]];
      OneFurther(fs, at, along);
      assert along + rest == [along[0]] + (along[1..] + rest);
      WalkStep(fs, at, along[0], along[1..] + rest, links);
      assert next + along[1..] == whole;
      WalkAlong(fs, next, along[1..], rest, links);
    }
  }

  lemma OneFurther(fs: FS, at: Path, along: Path)
    requires WellFormed(fs) && Real(fs, at + along) && along != []
    ensures at in fs && fs[at].Dir? && Real(fs, at + [along[0]]) && Name(along[0])
  {
    var whole := at + along;
    assert whole[..|at|] == at && whole[..|at| + 1] == at + [along[0]];
    Ancestors(fs, whole, |at|);
    Ancestors(fs, whole, |at| + 1);
    assert whole[|at|] == along[0];
    if |along| == 1 {
      assert whole == at + [along[0]];
    }
  }

  lemma WalkToReal(fs: FS, p: Path, links: nat)
    requires WellFormed(fs) && Real(fs, p)
    ensures EvalSymlinks(fs, p, links) == Some(p)
  {
    assert [] + p == p && p + [] == p;
    WalkAlong(fs, [], p, [], links);
  }

  /** Lstat sees a real entry under its own name. */
  lemma LstatReal(fs: FS, p: Path, links: nat)
    requires WellFormed(fs) && Real(fs, p)
    ensures Lstat(fs, p, links)
  {
    if p != [] {
      var d := p[..|p| - 1];
      Ancestors(fs, p, |p| - 1);
      WalkToReal(fs, d, links);
      assert d + [p[|p| - 1]] == p;
    }
  }

  lemma WalkStuck(fs: FS, at: Path, t: string, more: seq<string>, links: nat)
    requires Name(t) && at + [t] !in fs
    ensures Walk(fs, at, [t] + more, links) == None
  {}

  /** A path whose real prefix q has no entry t leads nowhere. */
  lemma WalkMissing(fs: FS, q: Path, t: string, more: seq<string>, links: nat)
    requires WellFormed(fs) && Real(fs, q) && Name(t) && q + [t] !in fs
    ensures EvalSymlinks(fs, q + ([t] + more), links) == None
  {
    hide Walk;
    assert [] + q == q;
    WalkAlong(fs, [], q, [t] + more, links);
    WalkStuck(fs, q, t, more, links);
  }

  lemma ResolvedSplit(fs: FS, p: Path, kernel: nat, library: nat)
    requires WellFormed(fs) && Proper(p)
    requires ResolveMissing(fs, p, kernel, library).Some?
    ensures var n := Deepest(fs, p, kernel);
      var e := EvalSymlinks(fs, p[..n], library);
      e.Some? && Real(fs, e.value) && ResolveMissing(fs, p, kernel, library).value == e.value + p[n..]
    ensures Proper(ResolveMissing(fs, p, kernel, library).value)
  {
    WalkReal(fs, [], p[..Deepest(fs, p, kernel)], library);
  }

  /** More links allowed, same destination. */
  lemma {:induction false} WalkMore(fs: FS, at: Path, rest: seq<string>, links: nat, more: nat)
    requires links <= more && Walk(fs, at, rest, links).Some?
    ensures Walk(fs, at, rest, more) == Walk(fs, at, rest, links)
    decreases links, |rest|
  {
    if rest != [] {
      if rest[0] == "" || rest[0] == "." {
        WalkMore(fs, at, rest[1..], links, more);
      } else if rest[0] == ".." {
        WalkMore(fs, if at == [] then [] else at[..|at| - 1], rest[1..], links, more);
      } else {
        var next := at + [rest[0]];
        match fs[next]
        case Link(target) =>
          WalkMore(fs, TargetBase(at, target), Split(target, '/') + rest[1..], links - 1, more - 1);
        case _ =>
          WalkMore(fs, next, rest[1..], links, more);
      }
    }
  }

  lemma EvalAgree(fs: FS, p: Path, a: nat, b: nat)
    requires EvalSymlinks(fs, p, a).Some? && EvalSymlinks(fs, p, b).Some?
    ensures EvalSymlinks(fs, p, a) == EvalSymlinks(fs, p, b)
  {
    hide Walk;
    if a <= b {
      WalkMore(fs, [], p, a, b);
    } else {
      WalkMore(fs, [], p, b, a);
    }
  }

  /** The kernel can follow every link along the longest prefix it sees. */
  predicate KernelFollows(fs: FS, p: Path, kernel: nat) {
    EvalSymlinks(fs, p[..Deepest(fs, p, kernel)], kernel).Some?
  }

  /** When the kernel can follow the existing prefix, the missing tail does not exist under the resolved
      prefix either. */
  lemma ResolveMissingReal(fs: FS, p: Path, kernel: nat, library: nat)
    requires WellFormed(fs) && Proper(p)
    requires ResolveMissing(fs, p, kernel, library).Some? && KernelFollows(fs, p, kernel)
    ensures var n := Deepest(fs, p, kernel);
      n < |p| ==> EvalSymlinks(fs, p[..n], library).value + [p[n]] !in fs
  {
    hide Walk;
    var n := Deepest(fs, p, kernel);
    EvalAgree(fs, p[..n], kernel, library);
    var q := EvalSymlinks(fs, p[..n], library).value;
    if n < |p| {
      assert !Lstat(fs, p[..n + 1], kernel);
      assert p[..n + 1][..n] == p[..n] && p[..n + 1][n] == p[n];
      assert (q + [p[n]])[..|q|] == q;
    }
  }

  lemma TailNotThere(fs: FS, q: Path, tail: Path, cut: nat, links: nat)
    requires WellFormed(fs) && Real(fs, q) && Proper(tail) && cut < |tail| && q + [tail[0]] !in fs
    ensures !Lstat(fs, q + tail[..cut + 1], links)
  {
    hide Walk;
    var p := q + tail[..cut + 1];
    assert p[..|p| - 1] == q + tail[..cut] && p[|p| - 1] == tail[cut];
    if cut == 0 {
      assert q + tail[..0] == q;
      WalkToReal(fs, q, links);
    } else {
      assert tail[..cut] == [tail[0]] + tail[1..cut];
      WalkMissing(fs, q, tail[0], tail[1..cut], links);
    }
  }

  /** Every path q + tail whose prefix q is real and whose tail starts at a missing entry resolves
      to itself. */
  lemma ResolvedIsFixed(fs: FS, q: Path, tail: Path, kernel: nat, library: nat)
    requires WellFormed(fs) && Real(fs, q) && Proper(tail)
    requires tail != [] ==> q + [tail[0]] !in fs
    ensures ResolveMissing(fs, q + tail, kernel, library) == Some(q + tail)
  {
    hide Lstat, EvalSymlinks, WellFormed, Real;
    var r := q + tail;
    assert r[..|q|] == q && r[|q|..] == tail;
    LstatReal(fs, q, kernel);
    WalkToReal(fs, q, library);
    forall j | |q| < j <= |r| ensures !Lstat(fs, r[..j], kernel) {
      assert r[..j] == q + tail[..j - |q|];
      TailNotThere(fs, q, tail, j - |q| - 1, kernel);
    }
    assert Deepest(fs, r, kernel) == |q|;
  }

  lemma MissingStays(fs: FS, p: Path, more: Path)
    requires WellFormed(fs) && p !in fs
    ensures p + more !in fs
  {
    assert (p + more)[..|p|] == p;
    if p + more in fs {
      Ancestors(fs, p + more, |p|);
    }
  }

  /** No existing prefix of r is a symlink. */
  ghost predicate SymlinkFree(fs: FS, r: Path) {
    forall n :: 0 <= n <= |r| && r[..n] in fs ==> !fs[r[..n]].Link?
  }

  lemma PastSplit(q: Path, tail: Path, n: nat)
    requires |q| < n <= |q| + |tail|
    ensures (q + tail)[..n] == q + [tail[0]] + tail[1..n - |q|]
  {
    var m := n - |q|;
    assert (q + tail)[..n] == q + tail[..m];
    assert tail[..m] == [tail[0]] + tail[1..m];
  }

  lemma ResolvedSymlinkFree(fs: FS, q: Path, tail: Path)
    requires WellFormed(fs) && Real(fs, q)
    requires tail != [] ==> q + [tail[0]] !in fs
    ensures SymlinkFree(fs, q + tail)
  {
    var r := q + tail;
    forall n | 0 <= n <= |r| && r[..n] in fs ensures !fs[r[..n]].Link? {
      if n <= |q| {
        assert r[..n] == q[..n] && q[..|q|] == q;
        Ancestors(fs, q, n);
      } else {
        PastSplit(q, tail, n);
        MissingStays(fs, q + [tail[0]], tail[1..n - |q|]);
      }
    }
  }

  lemma ShowComponents(root: Path, r: Path)
    requires Proper(r)
    ensures Clean(Components(root, Show(r))) == r
  {
    var s := Show(r);
    assert s[0] == '/';
    if r == [] {
      assert s == "" + ['/'] + "";
      SplitCons("", "", '/');
      assert Components(root, s) == ["", ""];
      assert ["", ""][..1] == [""] && [""][..0] == [];
    } else {
      assert s == "" + ['/'] + Join(r, '/');
      SplitCons("", Join(r, '/'), '/');
      SplitJoin(r, '/');
      assert Components(root, s) == [""] + r;
      CleanAfterEmpty(r);
    }
  }

  lemma {:induction false} CleanAfterEmpty(r: Path)
    requires Proper(r)
    ensures Clean([""] + r) == r
  {
    if r == [] {
      assert [""][..0] == [];
    } else {
      var n := |r| - 1;
      CleanAfterEmpty(r[..n]);
      assert ([""] + r)[..n + 1] == [""] + r[..n];
      assert r == r[..n] + [r[n]];
    }
  }

  /** Every path Resolve returns lies under the root, component by component. It is a fixed point of
      Resolve exactly when it has no symlink among its existing prefixes, and that is so whenever the
      kernel could follow the existing prefix of the argument. */
  lemma ResolveContains(fs: FS, root: Path, p: string, kernel: nat, library: nat)
    requires WellFormed(fs) && Real(fs, root) && fs[root].Dir?
    requires Containment(fs, root, p, kernel, library).Resolved?
    ensures var r := Containment(fs, root, p, kernel, library).path;
      && root <= r && Proper(r)
      && (SymlinkFree(fs, r) <==> Containment(fs, root, Show(r), kernel, library) == Resolved(r))
      && (KernelFollows(fs, Clean(Components(root, p)), kernel) ==> SymlinkFree(fs, r))
  {
    hide Walk, Clean, Components, Show, WellFormed, KernelFollows;
    var cleaned := Clean(Components(root, p));
    CleanIsProper(Components(root, p), root, p, fs);
    ResolvedSplit(fs, cleaned, kernel, library);
    var r := ResolveMissing(fs, cleaned, kernel, library).value;
    ShowComponents(root, r);
    FixedExactly(fs, r, kernel, library);
    if KernelFollows(fs, cleaned, kernel) {
      ResolveMissingReal(fs, cleaned, kernel, library);
      var n := Deepest(fs, cleaned, kernel);
      ResolvedSymlinkFree(fs, EvalSymlinks(fs, cleaned[..n], library).value, cleaned[n..]);
    }
  }

  /** No entry along tail below q is a symlink. */
  ghost predicate NoLinkBelow(fs: FS, q: Path, tail: Path) {
    forall m :: 0 < m <= |tail| && q + tail[..m] in fs ==> !fs[q + tail[..m]].Link?
  }

  /** For one argument: the result is symlink-free exactly when the kernel could follow the existing
      prefix, or no entry along the rejoined tail below the resolved prefix is a symlink. */
  lemma SymlinkFreeForArgument(fs: FS, root: Path, p: string, kernel: nat, library: nat)
    requires Succeeds(fs, root, p, kernel, library)
    ensures var cleaned := Clean(Components(root, p));
      var n := Deepest(fs, cleaned, kernel);
      var q := EvalSymlinks(fs, cleaned[..n], library);
      q.Some? && (SymlinkFree(fs, Containment(fs, root, p, kernel, library).path)
        <==> KernelFollows(fs, cleaned, kernel) || NoLinkBelow(fs, q.value, cleaned[n..]))
  {
    hide Walk, Clean, Components, WellFormed, KernelFollows, SymlinkFree, NoLinkBelow;
    var cleaned := Clean(Components(root, p));
    CleanIsProper(Components(root, p), root, p, fs);
    ResolvedSplit(fs, cleaned, kernel, library);
    ResolveContains(fs, root, p, kernel, library);
    var n := Deepest(fs, cleaned, kernel);
    FreeExactlyBelow(fs, EvalSymlinks(fs, cleaned[..n], library).value, cleaned[n..]);
  }

  lemma FreeExactlyBelow(fs: FS, q: Path, tail: Path)
    requires WellFormed(fs) && Real(fs, q)
    ensures SymlinkFree(fs, q + tail) <==> NoLinkBelow(fs, q, tail)
  {
    var r := q + tail;
    if SymlinkFree(fs, r) {
      forall m | 0 < m <= |tail| && q + tail[..m] in fs ensures !fs[q + tail[..m]].Link? {
        assert r[..|q| + m] == q + tail[..m];
      }
    }
    if NoLinkBelow(fs, q, tail) {
      forall m | 0 <= m <= |r| && r[..m] in fs ensures !fs[r[..m]].Link? {
        if m <= |q| {
          assert r[..m] == q[..m] && q[..|q|] == q;
          Ancestors(fs, q, m);
        } else {
          assert r[..m] == q + tail[..m - |q|];
        }
      }
    }
  }

  /** The part of a path that exists entry by entry, without following any link. */
  lemma ExistingPart(fs: FS, r: Path) returns (n: nat)
    requires WellFormed(fs)
    ensures n <= |r| && r[..n] in fs && (n < |r| ==> r[..n + 1] !in fs)
  {
    n := 0;
    assert r[..0] == [];
    while n < |r| && r[..n + 1] in fs
      invariant n <= |r| && r[..n] in fs
    {
      n := n + 1;
    }
  }

  /** Resolving a proper path gives it back exactly when it is symlink-free. */
  lemma FixedExactly(fs: FS, r: Path, kernel: nat, library: nat)
    requires WellFormed(fs) && Proper(r)
    ensures SymlinkFree(fs, r) <==> ResolveMissing(fs, r, kernel, library) == Some(r)
  {
    hide ResolveMissing;
    if SymlinkFree(fs, r) {
      FreeIsFixed(fs, r, kernel, library);
    } else if ResolveMissing(fs, r, kernel, library) == Some(r) {
      var m :| 0 <= m <= |r| && r[..m] in fs && fs[r[..m]].Link?;
      FixedHasNoLink(fs, r, m, kernel, library);
    }
  }

  lemma FreeIsFixed(fs: FS, r: Path, kernel: nat, library: nat)
    requires WellFormed(fs) && Proper(r) && SymlinkFree(fs, r)
    ensures ResolveMissing(fs, r, kernel, library) == Some(r)
  {
    hide ResolveMissing, WellFormed;
    var n := ExistingPart(fs, r);
    var q, tail := r[..n], r[n..];
    assert r == q + tail;
    assert tail != [] ==> q + [tail[0]] == r[..n + 1];
    ResolvedIsFixed(fs, q, tail, kernel, library);
  }

  lemma FixedHasNoLink(fs: FS, r: Path, m: nat, kernel: nat, library: nat)
    requires WellFormed(fs) && Proper(r) && ResolveMissing(fs, r, kernel, library) == Some(r)
    requires m <= |r| && r[..m] in fs
    ensures !fs[r[..m]].Link?
  {
    hide Lstat, EvalSymlinks, ResolveMissing;
    var n := FixedIsRealPrefix(fs, r, kernel, library);
    if m <= n {
      Ancestors(fs, r[..n], m);
      assert r[..n][..m] == r[..m];
    } else {
      assert r[..m][..n] == r[..n] && r[..m][..n + 1] == r[..n + 1];
      LstatBelow(fs, r[..n], r[..m], kernel);
    }
  }

  /** The prefix the kernel sees of a path that resolves to itself is real. */
  lemma FixedIsRealPrefix(fs: FS, r: Path, kernel: nat, library: nat) returns (n: nat)
    requires WellFormed(fs) && Proper(r) && ResolveMissing(fs, r, kernel, library) == Some(r)
    ensures n == Deepest(fs, r, kernel) && Real(fs, r[..n])
  {
    hide Lstat, EvalSymlinks, WellFormed;
    ResolvedSplit(fs, r, kernel, library);
    n := Deepest(fs, r, kernel);
    var q := EvalSymlinks(fs, r[..n], library).value;
    assert |q| + |r[n..]| == |r|;
    assert (q + r[n..])[..n] == q;
  }

  /** The kernel sees the next existing entry below a real directory. */
  lemma LstatBelow(fs: FS, q: Path, p: Path, kernel: nat)
    requires WellFormed(fs) && Real(fs, q) && p in fs && q < p
    ensures Lstat(fs, p[..|q| + 1], kernel)
  {
    hide Walk;
    var next := p[..|q| + 1];
    Ancestors(fs, p, |q| + 1);
    Ancestors(fs, p, |q|);
    WalkToReal(fs, q, kernel);
    assert next[..|q|] == q && q + [next[|q|]] == next;
  }

  // ---- when every resolved path is symlink-free ---------------------------

  /** A file system in which w/s leads back to w and w/x leads out of it. */
  const LOOP: FS := map[[] := Dir, ["w"] := Dir, ["w", "s"] := Link("."), ["w", "x"] := Link("/")]

  /** The path s/s/.../s with k components. */
  function Loops(k: nat): Path {
    if k == 0 then [] else ["s"] + Loops(k - 1)
  }

  lemma {:induction false} LoopWalk(k: nat, rest: seq<string>, links: nat)
    ensures Walk(LOOP, ["w"], Loops(k) + rest, links)
         == if k <= links then Walk(LOOP, ["w"], rest, links - k) else None
    decreases k
  {
    if k == 0 {
      assert Loops(0) + rest == rest;
    } else {
      var more := Loops(k - 1) + rest;
      assert Loops(k) + rest == ["s"] + more;
      OneLoop(more, links);
      if links > 0 {
        LoopWalk(k - 1, rest, links - 1);
      }
    }
  }

  lemma OneLoop(more: seq<string>, links: nat)
    ensures Walk(LOOP, ["w"], ["s"] + more, links)
         == if links == 0 then None else Walk(LOOP, ["w"], more, links - 1)
  {
    assert (["s"] + more)[1..] == more;
    assert ["w"] + ["s"] == ["w", "s"];
    assert Split(".", '/') == ["."] by { SplitCons(".", "", '/'); }
    assert (["."] + more)[1..] == more && (["."] + more)[0] == ".";
  }

  lemma WalkFromRoot(rest: seq<string>, links: nat)
    ensures EvalSymlinks(LOOP, ["w"] + rest, links) == Walk(LOOP, ["w"], rest, links)
  {
    assert [] + ["w"] == ["w"];
    assert (["w"] + rest)[1..] == rest;
  }

  /** Where k turns of the loop lead. */
  lemma LoopEval(k: nat, links: nat)
    ensures EvalSymlinks(LOOP, ["w"] + Loops(k), links) == if k <= links then Some(["w"]) else None
  {
    hide Walk, EvalSymlinks;
    WalkFromRoot(Loops(k), links);
    LoopWalk(k, [], links);
    assert Loops(k) + [] == Loops(k);
    AtEnd(LOOP, ["w"], if k <= links then links - k else 0);
  }

  lemma {:induction false} LoopsSnoc(k: nat)
    ensures Loops(k + 1) == Loops(k) + ["s"] && |Loops(k)| == k && Proper(Loops(k))
  {
    if k > 0 {
      LoopsSnoc(k - 1);
      assert Loops(k + 1) == ["s"] + Loops(k - 1) + ["s"];
    }
  }

  /** One turn more than the kernel follows: it sees w/s/.../s, but nothing below it. */
  lemma DeepestLoop(kernel: nat)
    ensures Deepest(LOOP, ["w"] + Loops(kernel + 1) + ["x"], kernel) == kernel + 2
    ensures (["w"] + Loops(kernel + 1) + ["x"])[..kernel + 2] == ["w"] + Loops(kernel + 1)
  {
    hide Walk, EvalSymlinks, Deepest;
    LoopsSnoc(kernel);
    LoopsSnoc(kernel + 1);
    var parent := ["w"] + Loops(kernel + 1);
    var p := parent + ["x"];
    LoopEval(kernel, kernel);
    LoopEval(kernel + 1, kernel);
    assert p[..|p| - 1] == parent && p[..|p|] == p;
    assert parent[..|parent| - 1] == ["w"] + Loops(kernel) && parent[|parent| - 1] == "s";
    assert ["w"] + ["s"] == ["w", "s"];
    DeepestIs(LOOP, p, kernel, kernel + 2);
  }

  lemma DeepestIs(fs: FS, p: Path, links: nat, n: nat)
    requires n + 1 == |p| && Lstat(fs, p[..n], links) && !Lstat(fs, p, links)
    ensures Deepest(fs, p, links) == n
  {
    assert p[..|p|] == p;
    var d := Deepest(fs, p, links);
  }

  lemma LoopIsWellFormed()
    ensures WellFormed(LOOP)
  {
    var w, s, x := ["w"], ["w", "s"], ["w", "x"];
    assert LOOP.Keys == {[], w, s, x};
    assert w[..0] == [] && s[..1] == w && x[..1] == w;
    assert Name("w") && Name("s") && Name("x");
    assert Proper([]) && Proper(w) && Proper(s) && Proper(x);
  }

  /** When the library follows more links than the kernel, a link can survive in a resolved path: w/x is
      returned although it exists and leads elsewhere. */
  lemma LinkSurvives(kernel: nat, library: nat) returns (p: string)
    requires kernel < library
    ensures WellFormed(LOOP) && Real(LOOP, ["w"]) && LOOP[["w"]].Dir?
    ensures Containment(LOOP, ["w"], p, kernel, library) == Resolved(["w", "x"])
    ensures !SymlinkFree(LOOP, ["w", "x"])
  {
    hide Walk, EvalSymlinks, Deepest, Lstat, Show, Clean, Components;
    var parent := ["w"] + Loops(kernel + 1);
    var path := parent + ["x"];
    LoopIsWellFormed();
    LoopsSnoc(kernel + 1);
    p := Show(path);
    ShowComponents(["w"], path);
    DeepestLoop(kernel);
    LoopEval(kernel + 1, library);
    assert path[kernel + 2..] == ["x"] && ["w"] + ["x"] == ["w", "x"];
    assert ["w", "x"][..2] == ["w", "x"] && ["w"] <= ["w", "x"];
  }

  /** Resolve, in a workspace rooted at a real directory, returns a path for p. */
  ghost predicate Succeeds(fs: FS, root: Path, p: string, kernel: nat, library: nat) {
    WellFormed(fs) && Real(fs, root) && fs[root].Dir? && Containment(fs, root, p, kernel, library).Resolved?
  }

  /** Every path Resolve ever returns is symlink-free exactly when the library follows no more links
      than the kernel. */
  lemma SymlinkFreeExactly(kernel: nat, library: nat)
    ensures (forall fs, root, p | Succeeds(fs, root, p, kernel, library) ::
        SymlinkFree(fs, Containment(fs, root, p, kernel, library).path)) <==> library <= kernel
  {
    hide WellFormed, Containment, SymlinkFree;
    if library <= kernel {
      forall fs, root, p | Succeeds(fs, root, p, kernel, library)
        ensures SymlinkFree(fs, Containment(fs, root, p, kernel, library).path)
      {
        KernelFollowsAll(fs, root, p, kernel, library);
        ResolveContains(fs, root, p, kernel, library);
      }
    } else {
      var p := LinkSurvives(kernel, library);
      assert Succeeds(LOOP, ["w"], p, kernel, library);
    }
  }

  lemma KernelFollowsAll(fs: FS, root: Path, p: string, kernel: nat, library: nat)
    requires library <= kernel && Containment(fs, root, p, kernel, library).Resolved?
    ensures KernelFollows(fs, Clean(Components(root, p)), kernel)
  {
    hide Walk, Clean, Components;
    var cleaned := Clean(Components(root, p));
    WalkMore(fs, [], cleaned[..Deepest(fs, cleaned, kernel)], library, kernel);
  }

  /** A path that exists resolves to the entry reached through it; a link that leads nowhere is an error. */
  lemma ExistingResolvesToItsEntry(fs: FS, root: Path, p: string, kernel: nat, library: nat)
    requires WellFormed(fs) && Real(fs, root) && fs[root].Dir?
    requires Lstat(fs, Clean(Components(root, p)), kernel)
    ensures var e := EvalSymlinks(fs, Clean(Components(root, p)), library);
      && Containment(fs, root, p, kernel, library)
           == (if e.None? then Unresolvable else if root <= e.value then Resolved(e.value) else Outside)
      && (e.Some? ==> Real(fs, e.value) && SymlinkFree(fs, e.value))
  {
    hide Walk;
    var cleaned := Clean(Components(root, p));
    assert cleaned[..|cleaned|] == cleaned;
    assert Deepest(fs, cleaned, kernel) == |cleaned|;
    assert forall q: Path :: q + [] == q;
    WalkReal(fs, [], cleaned, library);
    var e := EvalSymlinks(fs, cleaned, library);
    if e.Some? {
      ResolvedSymlinkFree(fs, e.value, []);
    }
  }

  /** New: the root argument must be absolute and resolve to a directory. */
  function NewRoot(fs: FS, p: string, links: nat): Option<Path> {
    if p == "" || p[0] != '/' then None
    else match Walk(fs, [], Split(p, '/'), links)
      case None => None
      case Some(r) => if r in fs && fs[r].Dir? then Some(r) else None
  }

  /** A root accepted by New is canonical: it contains itself, under its own name. */
  lemma NewRootIsFixed(fs: FS, p: string, kernel: nat, library: nat)
    requires WellFormed(fs) && NewRoot(fs, p, library).Some?
    ensures var root := NewRoot(fs, p, library).value;
      Real(fs, root) && fs[root].Dir? && Containment(fs, root, Show(root), kernel, library) == Resolved(root)
  {
    var root := NewRoot(fs, p, library).value;
    assert root + [] == root;
    ResolvedIsFixed(fs, root, [], kernel, library);
    ShowComponents(root, root);
  }

  // ---- what an argument names ---------------------------------------------

  /** Cleaning depends on a prefix only through its cleaned form. */
  lemma {:induction false} CleanPrefix(a: seq<string>, b: seq<string>, rest: seq<string>)
    requires Clean(a) == Clean(b)
    ensures Clean(a + rest) == Clean(b + rest)
  {
    if rest == [] {
      assert a + rest == a && b + rest == b;
    } else {
      CleanPrefix(a, b, rest[..|rest| - 1]);
      LastOfConcat(a, rest);
      LastOfConcat(b, rest);
    }
  }

  lemma CleanSnoc(comps: seq<string>, c: string)
    ensures Clean(comps + [c]) == CleanStep(Clean(comps), c)
  {
    assert (comps + [c])[..|comps|] == comps;
  }

  lemma LinkFreeStep(fs: FS, at: Path, rest: seq<string>)
    requires Proper(at) && rest != [] && '/' !in rest[0] && Walk(fs, at, rest, 0).Some?
    ensures Walk(fs, at, rest, 0) == Walk(fs, CleanStep(at, rest[0]), rest[1..], 0)
    ensures Proper(CleanStep(at, rest[0]))
  {}

  lemma AtEnd(fs: FS, at: Path, links: nat)
    ensures Walk(fs, at, [], links) == Some(at)
  {}

  /** Where a walk that meets no link arrives is the cleaned path. */
  lemma {:induction false} WalkIsClean(fs: FS, at: Path, rest: seq<string>)
    requires Proper(at) && Walk(fs, at, rest, 0).Some?
    requires forall k :: 0 <= k < |rest| ==> '/' !in rest[k]
    ensures Walk(fs, at, rest, 0).value == Clean(at + rest)
    decreases |rest|
  {
    hide Walk, Clean, CleanStep, Proper;
    CleanProper(at);
    if rest == [] {
      assert at + rest == at;
      AtEnd(fs, at, 0);
    } else {
      var c, more := rest[0], rest[1..];
      var next := CleanStep(at, c);
      LinkFreeStep(fs, at, rest);
      CleanSnoc(at, c);
      CleanProper(next);
      CleanPrefix(at + [c], next, more);
      assert at + rest == at + [c] + more;
      WalkIsClean(fs, next, more);
    }
  }

  lemma ComponentsSlashless(root: Path, p: string)
    requires Proper(root)
    ensures forall k :: 0 <= k < |Components(root, p)| ==> '/' !in Components(root, p)[k]
  {
    var parts := Split(p, '/');
    forall k | 0 <= k < |parts| ensures '/' !in parts[k] {
      assert parts[k] in parts;
    }
  }

  /** An argument whose components lead, without any link, to an entry resolves to that entry, whatever
      dots and slashes it holds: cleaning it names no other entry than following it reaches. */
  lemma LinkFreeResolvesToItsEntry(fs: FS, root: Path, p: string, kernel: nat, library: nat)
    requires WellFormed(fs) && Real(fs, root) && fs[root].Dir?
    requires Walk(fs, [], Components(root, p), 0).Some?
    ensures var e := Walk(fs, [], Components(root, p), 0).value;
      && Real(fs, e) && e == Clean(Components(root, p))
      && Containment(fs, root, p, kernel, library) == if root <= e then Resolved(e) else Outside
  {
    hide Walk, Components, Clean, WellFormed;
    var comps := Components(root, p);
    assert Proper(root) by { ProperEntry(fs, root); }
    ComponentsSlashless(root, p);
    assert [] + comps == comps;
    assert WellFormed(fs) && Real(fs, []) by { RootIsReal(fs); }
    WalkIsClean(fs, [], comps);
    WalkReal(fs, [], comps, 0);
    var e := Walk(fs, [], comps, 0).value;
    assert e + [] == e;
    ResolvedIsFixed(fs, e, [], kernel, library);
  }

  lemma ProperEntry(fs: FS, p: Path)
    requires WellFormed(fs) && p in fs
    ensures Proper(p)
  {}

  lemma RootIsReal(fs: FS)
    requires WellFormed(fs)
    ensures Real(fs, [])
  {}

  lemma JoinStarts(q: Path)
    requires Proper(q) && q != []
    ensures Join(q, '/') != "" && Join(q, '/')[0] != '/'
  {
    assert q[0] != "" && Join(q, '/')[0] == q[0][0];
  }

  /** A relative argument is taken from the root: it names the entry below the root, and a file still to be
      created below an existing directory keeps its name. */
  lemma RelativeResolves(fs: FS, root: Path, q: Path, tail: Path, kernel: nat, library: nat)
    requires WellFormed(fs) && Real(fs, root) && fs[root].Dir?
    requires Proper(q + tail) && q + tail != [] && Real(fs, root + q)
    requires tail != [] ==> root + q + [tail[0]] !in fs
    ensures Containment(fs, root, Join(q + tail, '/'), kernel, library) == Resolved(root + (q + tail))
  {
    hide WellFormed, Clean, Components, Join;
    var rel := q + tail;
    ProperEntry(fs, root);
    ProperParts(q, tail);
    RelativeComponents(root, rel);
    ResolvedIsFixed(fs, root + q, tail, kernel, library);
    Assoc(root, q, tail);
    assert root <= root + rel;
  }

  lemma ProperParts(a: Path, b: Path)
    ensures Proper(a + b) <==> Proper(a) && Proper(b)
  {
    if Proper(a + b) {
      forall k | 0 <= k < |a| ensures Name(a[k]) {
        assert (a + b)[k] == a[k];
      }
      forall k | 0 <= k < |b| ensures Name(b[k]) {
        assert (a + b)[|a| + k] == b[k];
      }
    }
  }

  lemma RelativeComponents(root: Path, rel: Path)
    requires Proper(root) && Proper(rel) && rel != []
    ensures Clean(Components(root, Join(rel, '/'))) == root + rel
  {
    hide Clean;
    JoinStarts(rel);
    assert forall p :: p in rel ==> '/' !in p;
    SplitJoin(rel, '/');
    ProperParts(root, rel);
    CleanProper(root + rel);
  }

  /** An absolute argument is taken from the root directory of the file system. */
  lemma AbsoluteResolves(fs: FS, root: Path, q: Path, tail: Path, kernel: nat, library: nat)
    requires WellFormed(fs) && Real(fs, root) && fs[root].Dir?
    requires Real(fs, q) && Proper(tail) && (tail != [] ==> q + [tail[0]] !in fs)
    ensures Containment(fs, root, Show(q + tail), kernel, library)
         == if root <= q + tail then Resolved(q + tail) else Outside
  {
    ProperEntry(fs, q);
    ShowComponents(root, q + tail);
    ResolvedIsFixed(fs, q, tail, kernel, library);
  }

  /** A relative argument, whatever it holds, resolves as the same argument written after the root does. */
  lemma RelativeIsBelowRoot(fs: FS, root: Path, p: string, kernel: nat, library: nat)
    requires Proper(root) && (p == "" || p[0] != '/')
    ensures Containment(fs, root, p, kernel, library)
         == Containment(fs, root, Show(root) + "/" + p, kernel, library)
  {
    hide ResolveMissing, Clean, Split, Show;
    var full := Show(root) + "/" + p;
    Shown(root);
    assert full[0] == '/';
    ShownComponents(root, p);
    ShowComponents(root, root);
    CleanProper(root);
    CleanPrefix(Split(Show(root), '/'), root, Split(p, '/'));
  }

  lemma Shown(root: Path)
    ensures Show(root) != "" && Show(root)[0] == '/'
  {}

  lemma ShownComponents(root: Path, p: string)
    requires Proper(root)
    ensures Split(Show(root) + "/" + p, '/') == Split(Show(root), '/') + Split(p, '/')
  {
    hide Split;
    if root == [] {
      ShownRoot(p);
    } else {
      var j := Join(root, '/');
      hide Join;
      assert Show(root) + "/" + p == "" + ['/'] + (j + ['/'] + p);
      assert Show(root) == "" + ['/'] + j;
      SplitCons("", j + ['/'] + p, '/');
      SplitCons("", j, '/');
      assert forall c :: c in root ==> '/' !in c;
      SplitJoin(root, '/');
      SplitMore(root, p);
      Assoc([""], root, Split(p, '/'));
    }
  }

  lemma ShownRoot(p: string)
    ensures Split(Show([]) + "/" + p, '/') == Split(Show([]), '/') + Split(p, '/')
  {
    hide Split;
    assert Show([]) + "/" + p == "" + ['/'] + ("" + ['/'] + p);
    assert Show([]) == "" + ['/'] + "";
    SplitCons("", "" + ['/'] + p, '/');
    SplitCons("", p, '/');
    SplitCons("", "", '/');
    Assoc([""], [""], Split(p, '/'));
    assert [""] + [""] == ["", ""];
  }

  lemma {:induction false} SplitMore(parts: Path, p: string)
    requires Proper(parts) && parts != []
    ensures Split(Join(parts, '/') + ['/'] + p, '/') == parts + Split(p, '/')
  {
    hide Split, Join;
    assert Name(parts[0]);
    assert parts == [parts[0]] + parts[1..];
    if |parts| == 1 {
      assert parts == [parts[0]];
      JoinOne(parts[0], '/');
      SplitCons(parts[0], p, '/');
    } else {
      SplitMore(parts[1..], p);
      JoinFirst(parts[0], parts[1..], '/');
      var rest := Join(parts[1..], '/') + ['/'] + p;
      assert Join(parts, '/') + ['/'] + p == parts[0] + ['/'] + rest;
      SplitCons(parts[0], rest, '/');
      Assoc([parts[0]], parts[1..], Split(p, '/'));
    }
  }

  /** New accepts the written form of a real directory as it stands, and no relative path. */
  lemma NewRootExactly(fs: FS, q: Path, p: string, library: nat)
    requires WellFormed(fs) && Real(fs, q) && fs[q].Dir?
    ensures NewRoot(fs, Show(q), library) == Some(q)
    ensures p == "" || p[0] != '/' ==> NewRoot(fs, p, library) == None
  {
    hide Walk, WellFormed;
    ProperEntry(fs, q);
    RootIsReal(fs);
    var s := Show(q);
    if q == [] {
      assert s == "" + ['/'] + "";
      SplitCons("", "", '/');
      assert Split(s, '/') == ["", ""];
      EmptyStep(fs, [""], library);
      EmptyStep(fs, [], library);
      assert [""] + [] == [""] && [""] + [""] == ["", ""];
      WalkToReal(fs, [], library);
    } else {
      assert s == "" + ['/'] + Join(q, '/');
      SplitCons("", Join(q, '/'), '/');
      SplitJoin(q, '/');
      EmptyStep(fs, q, library);
      WalkToReal(fs, q, library);
    }
  }

  lemma EmptyStep(fs: FS, rest: seq<string>, links: nat)
    requires WellFormed(fs)
    ensures Walk(fs, [], [""] + rest, links) == Walk(fs, [], rest, links)
  {
    assert ([""] + rest)[1..] == rest;
  }
}
