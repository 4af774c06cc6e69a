/** Strings, ordering and sorting: the library vocabulary the other modules share. */
module Text {

  datatype Option<+T> = None | Some(value: T)

  /** The position of the first c in s, or |s| when there is none. */
  function Index(s: string, c: char): (i: nat)
    ensures i <= |s|
    ensures forall k :: 0 <= k < i ==> s[k] != c
    ensures i < |s| ==> s[i] == c
  {
    if s == "" || s[0] == c then 0 else 1 + Index(s[1..], c)
  }

  /** Cutting at every c: always at least one piece, possibly empty. */
  function Split(s: string, c: char): (parts: seq<string>)
    ensures |parts| >= 1
    ensures forall p :: p in parts ==> c !in p
  {
    var i := Index(s, c);
    if i == |s| then assert s == s[..i]; [s] else [s[..i]] + Split(s[i + 1..], c)
  }

  function Join(parts: seq<string>, c: char): string {
    if |parts| == 0 then "" else if |parts| == 1 then parts[0] else parts[0] + [c] + Join(parts[1..], c)
  }

  /** All the pieces, one after the other. */
  function Concat(parts: seq<string>): string {
    if parts == [] then "" else Concat(parts[..|parts| - 1]) + parts[|parts| - 1]
  }

  function TrimLeft(drop: char -> bool, s: string): string {
    if s != "" && drop(s[0]) then TrimLeft(drop, s[1..]) else s
  }

  function TrimRight(drop: char -> bool, s: string): string {
    if s != "" && drop(s[|s| - 1]) then TrimRight(drop, s[..|s| - 1]) else s
  }

  lemma {:induction false} ConcatCons(p: string, rest: seq<string>)
    ensures Concat([p] + rest) == p + Concat(rest)
  {
    if rest == [] {
      assert [p] + rest == [p] && [p][..0] == [];
    } else {
      var n := |rest| - 1;
      var all := [p] + rest;
      ConcatCons(p, rest[..n]);
      ConcatSnoc(all);
      ConcatSnoc(rest);
      hide Concat;
      assert all[..n + 1] == [p] + rest[..n] && all[n + 1] == rest[n];
    }
  }

  lemma ConcatSnoc(parts: seq<string>)
    requires parts != []
    ensures Concat(parts) == Concat(parts[..|parts| - 1]) + parts[|parts| - 1]
  {
  }

  lemma IndexAt(s: string, c: char, i: nat)
    requires i <= |s| && (forall k :: 0 <= k < i ==> s[k] != c) && (i < |s| ==> s[i] == c)
    ensures Index(s, c) == i
  {
    var j := Index(s, c);
    assert i < |s| ==> j <= i;
    assert j < |s| ==> i <= j;
  }

  lemma {:induction false} SplitCons(p: string, rest: string, c: char)
    requires c !in p
    ensures Split(p, c) == [p]
    ensures Split(p + [c] + rest, c) == [p] + Split(rest, c)
  {
    assert p[..|p|] == p;
    IndexAt(p, c, |p|);
    var s := p + [c] + rest;
    assert s[..|p|] == p && s[|p| + 1..] == rest;
    IndexAt(s, c, |p|);
  }

  /** Joining separator-free pieces and splitting again is the identity. */
  lemma {:induction false} SplitJoin(parts: seq<string>, c: char)
    requires |parts| >= 1
    requires forall p :: p in parts ==> c !in p
    ensures Split(Join(parts, c), c) == parts
  {
    hide Split, Join;
    assert parts[0] in parts;
    assert parts == [parts[0]] + parts[1..];
    if |parts| == 1 {
      assert parts == [parts[0]];
      JoinOne(parts[0], c);
      SplitCons(parts[0], "", c);
    } else {
      assert forall p :: p in parts[1..] ==> p in parts;
      SplitJoin(parts[1..], c);
      JoinFirst(parts[0], parts[1..], c);
      SplitCons(parts[0], Join(parts[1..], c), c);
    }
  }

  /** Splitting and joining again is the identity on every string. */
  lemma {:induction false} JoinSplit(s: string, c: char)
    ensures Join(Split(s, c), c) == s
  {
    hide Index, Join, Split;
    var i := Index(s, c);
    SplitFirst(s, c);
    if i < |s| {
      JoinSplit(s[i + 1..], c);
      JoinFirst(s[..i], Split(s[i + 1..], c), c);
      CutAt(s, i);
    } else {
      JoinOne(s, c);
    }
  }

  lemma FirstOfConcat<T>(s: seq<T>, rest: seq<T>)
    requires s != []
    ensures (s + rest)[0] == s[0] && (s + rest)[1..] == s[1..] + rest && s == [s[0]] + s[1..]
  {}

  lemma InCons<T>(x: T, head: T, rest: seq<T>)
    ensures x in [head] + rest <==> x == head || x in rest
  {}

  lemma LastOfConcat<T>(a: seq<T>, b: seq<T>)
    requires b != []
    ensures (a + b)[..|a + b| - 1] == a + b[..|b| - 1] && (a + b)[|a + b| - 1] == b[|b| - 1]
  {}

  lemma Assoc<T>(a: seq<T>, b: seq<T>, c: seq<T>)
    ensures a + (b + c) == a + b + c
  {}

  lemma CutAt(s: string, i: nat)
    requires i < |s|
    ensures s == s[..i] + [s[i]] + s[i + 1..]
  {}

  lemma JoinOne(s: string, c: char)
    ensures Join([s], c) == s
  {}

  lemma SplitFirst(s: string, c: char)
    ensures var i := Index(s, c);
      Split(s, c) == if i == |s| then [s] else [s[..i]] + Split(s[i + 1..], c)
  {
    hide Index;
  }

  lemma JoinFirst(p: string, rest: seq<string>, c: char)
    requires rest != []
    ensures Join([p] + rest, c) == p + [c] + Join(rest, c)
  {
    assert ([p] + rest)[1..] == rest;
  }

  // ---- distinct values in first-seen order --------------------------------

  predicate NoDup<T(==)>(s: seq<T>) {
    forall i, j :: 0 <= i < j < |s| ==> s[i] != s[j]
  }

  /** The distinct values of s, in the order they first occur. */
  function FirstSeen<T(==)>(s: seq<T>): seq<T> {
    if s == [] then []
    else
      var before := FirstSeen(s[..|s| - 1]);
      if s[|s| - 1] in before then before else before + [s[|s| - 1]]
  }

  lemma {:induction false} FirstSeenDistinct<T>(s: seq<T>)
    ensures NoDup(FirstSeen(s))
    ensures forall x :: x in FirstSeen(s) <==> x in s
  {
    if s != [] {
      FirstSeenDistinct(s[..|s| - 1]);
      assert s == s[..|s| - 1] + [s[|s| - 1]];
    }
  }

  lemma SeenIsThere<T>(s: seq<T>, i: nat)
    requires i < |FirstSeen(s)|
    ensures FirstSeen(s)[i] in s
  {
    FirstSeenDistinct(s);
    assert FirstSeen(s)[i] in FirstSeen(s);
  }

  /** An earlier value of FirstSeen occurs in s before any later one does. */
  lemma {:induction false} FirstSeenOrder<T>(s: seq<T>, i: nat, j: nat) returns (p: nat)
    requires i < j < |FirstSeen(s)|
    ensures p < |s| && s[p] == FirstSeen(s)[i] && FirstSeen(s)[j] !in s[..p + 1]
  {
    var n := |s| - 1;
    var before := FirstSeen(s[..n]);
    if j < |before| {
      p := FirstSeenOrder(s[..n], i, j);
      assert s[..n][..p + 1] == s[..p + 1];
    } else {
      SeenIsThere(s[..n], i);
      FirstSeenDistinct(s[..n]);
      assert FirstSeen(s)[j] == s[n] && s[n] !in s[..n];
      p :| 0 <= p < |s[..n]| && s[..n][p] == before[i];
      assert s[..p + 1] <= s[..n];
    }
  }

  /** Duplicate-free sequences over the same values are permutations of each other. */
  lemma {:induction false} NoDupMultiset<T>(a: seq<T>, b: seq<T>)
    requires NoDup(a) && NoDup(b)
    requires forall x :: x in a <==> x in b
    ensures multiset(a) == multiset(b)
  {
    forall x ensures multiset(a)[x] == multiset(b)[x] {
      NoDupCount(a, x);
      NoDupCount(b, x);
    }
  }

  lemma {:induction false} NoDupCount<T>(a: seq<T>, x: T)
    requires NoDup(a)
    ensures multiset(a)[x] == if x in a then 1 else 0
  {
    if a != [] {
      var n := |a| - 1;
      NoDupCount(a[..n], x);
      assert a == a[..n] + [a[n]];
      assert a[n] !in a[..n];
    }
  }

  function Without<T>(s: seq<T>, i: nat): seq<T>
    requires i < |s|
  {
    s[..i] + s[i + 1..]
  }

  lemma RemoveAt<T>(s: seq<T>, i: nat)
    requires i < |s|
    ensures multiset(s) == multiset(Without(s, i)) + multiset{s[i]}
  {
    assert s == s[..i] + [s[i]] + s[i + 1..];
  }

  lemma WithoutAt<T>(s: seq<T>, i: nat)
    requires i < |s|
    ensures |Without(s, i)| == |s| - 1
    ensures forall k :: 0 <= k < |s| - 1 ==> Without(s, i)[k] == s[if k < i then k else k + 1]
  {}

  function Mapped<T, U>(f: T -> U, s: seq<T>): (r: seq<U>)
    ensures |r| == |s| && forall k :: 0 <= k < |s| ==> r[k] == f(s[k])
  {
    if s == [] then [] else Mapped(f, s[..|s| - 1]) + [f(s[|s| - 1])]
  }

  lemma MappedWithout<T, U>(f: T -> U, a: seq<T>, i: nat)
    requires i < |a|
    ensures multiset(a) == multiset(Without(a, i)) + multiset{a[i]}
    ensures multiset(Mapped(f, a)) == multiset(Mapped(f, Without(a, i))) + multiset{f(a[i])}
    ensures |Without(a, i)| < |a|
  {
    hide Mapped, Without;
    RemoveAt(a, i);
    RemoveAt(Mapped(f, a), i);
    WithoutAt(a, i);
    WithoutAt(Mapped(f, a), i);
    assert Mapped(f, Without(a, i)) == Without(Mapped(f, a), i);
  }

  /** Mapping two arrangements of one bag gives two arrangements of one bag. */
  lemma {:induction false} MappedBag<T, U>(f: T -> U, a: seq<T>, b: seq<T>)
    requires multiset(a) == multiset(b)
    ensures multiset(Mapped(f, a)) == multiset(Mapped(f, b))
    decreases |a|
  {
    hide Without, Mapped;
    if |a| == 0 {
      assert |multiset(b)| == 0;
      assert a == b;
    } else {
      assert a[0] in multiset(b);
      var i :| 0 <= i < |b| && b[i] == a[0];
      MappedWithout(f, a, 0);
      MappedWithout(f, b, i);
      assert multiset(Without(a, 0)) == multiset(a) - multiset{a[0]};
      assert multiset(Without(b, i)) == multiset(b) - multiset{b[i]};
      MappedBag(f, Without(a, 0), Without(b, i));
    }
  }

  lemma NonEmpty(s: set<int>)
    requires s != {}
    ensures exists x :: x in s
  {
    assert (forall x :: x !in s) ==> s == {};
  }

  lemma {:induction false} SubsetSize<T>(a: set<T>, b: set<T>)
    requires a <= b
    ensures |a| <= |b|
  {
    if a != {} {
      var x :| x in a;
      SubsetSize(a - {x}, b - {x});
    }
  }

  // ---- selections ---------------------------------------------------------

  /** ps lists the positions in good in increasing order. */
  ghost predicate InOrder(good: set<int>, ps: seq<int>) {
    (forall k, l :: 0 <= k < l < |ps| ==> ps[k] < ps[l]) && (forall i :: i in ps <==> i in good)
  }

  lemma InOrderSnoc(good: set<int>, ps: seq<int>, n: int)
    requires InOrder(good, ps) && forall i :: i in good ==> i < n
    ensures InOrder(good + {n}, ps + [n])
  {
    forall k | 0 <= k < |ps| ensures ps[k] < n {
      assert ps[k] in ps;
    }
  }

  // ---- byte-wise string order and sorting ---------------------------------

  predicate Less(a: string, b: string) {
    b != "" && (a == "" || a[0] < b[0] || (a[0] == b[0] && Less(a[1..], b[1..])))
  }

  ghost predicate StrictTotal<T(!new)>(less: (T, T) -> bool) {
    && (forall a :: !less(a, a))
    && (forall a, b, c :: less(a, b) && less(b, c) ==> less(a, c))
    && (forall a, b :: a != b ==> less(a, b) || less(b, a))
  }

  /** What sort.Slice needs of its comparator: a strict weak order. */
  ghost predicate StrictWeak<T(!new)>(less: (T, T) -> bool) {
    && (forall a, b :: less(a, b) ==> !less(b, a))
    && (forall a, b, c :: !less(b, a) && !less(c, b) ==> !less(c, a))
  }

  ghost predicate SortedBy<T>(s: seq<T>, less: (T, T) -> bool) {
    forall i, j :: 0 <= i < j < |s| ==> !less(s[j], s[i])
  }

  lemma {:induction false} LessTransitive(a: string, b: string, c: string)
    requires Less(a, b) && Less(b, c)
    ensures Less(a, c)
  {
    if a != "" && a[0] == b[0] == c[0] {
      LessTransitive(a[1..], b[1..], c[1..]);
    }
  }

  lemma {:induction false} LessTrichotomy(a: string, b: string)
    ensures !(Less(a, b) && Less(b, a))
    ensures a == b <==> !Less(a, b) && !Less(b, a)
  {
    if a != "" && b != "" && a[0] == b[0] {
      LessTrichotomy(a[1..], b[1..]);
      assert a == [a[0]] + a[1..] && b == [b[0]] + b[1..];
    } else if a == "" && b == "" {
    }
  }

  lemma FirstOfPrefix(a: string, b: string, i: nat)
    requires i <= |a| && i < |b| && a[..i] == b[..i]
    ensures i > 0 ==> a[0] == b[0]
  {
    if i > 0 {
      assert a[..i][0] == a[0] && b[..i][0] == b[0];
    }
  }

  /** The order is decided at the first difference; a proper prefix comes first. */
  lemma {:induction false} LessAtFirstDifference(a: string, b: string)
    ensures Less(a, b)
      <==> exists i :: 0 <= i <= |a| && i < |b| && a[..i] == b[..i] && (i == |a| || a[i] < b[i])
  {
    if a != "" && b != "" && a[0] == b[0] {
      var ta, tb := a[1..], b[1..];
      LessAtFirstDifference(ta, tb);
      if i :| 0 <= i <= |ta| && i < |tb| && ta[..i] == tb[..i] && (i == |ta| || ta[i] < tb[i]) {
        assert a[..i + 1] == [a[0]] + ta[..i] && b[..i + 1] == [b[0]] + tb[..i];
      }
      if i :| 0 <= i <= |a| && i < |b| && a[..i] == b[..i] && (i == |a| || a[i] < b[i]) {
        assert i > 0 && ta[..i - 1] == a[..i][1..] && tb[..i - 1] == b[..i][1..];
      }
    } else {
      assert a[..0] == b[..0];
      if i :| 0 <= i <= |a| && i < |b| && a[..i] == b[..i] && (i == |a| || a[i] < b[i]) {
        FirstOfPrefix(a, b, i);
      }
    }
  }

  lemma LessStrictTotal()
    ensures StrictTotal(Less)
  {
    forall a, b, c ensures Less(a, b) && Less(b, c) ==> Less(a, c) {
      if Less(a, b) && Less(b, c) {
        LessTransitive(a, b, c);
      }
    }
    forall a, b
      ensures !(Less(a, b) && Less(b, a))
      ensures a == b <==> !Less(a, b) && !Less(b, a)
    {
      LessTrichotomy(a, b);
    }
  }

  lemma TotalIsWeak<T(!new)>(less: (T, T) -> bool)
    requires StrictTotal(less)
    ensures StrictWeak(less)
  {
    forall a, b, c | !less(b, a) && !less(c, b) ensures !less(c, a) {
      assert a == b || less(a, b);
      assert b == c || less(b, c);
    }
  }

  lemma SortedHead<T(!new)>(a: seq<T>, b: seq<T>, less: (T, T) -> bool)
    requires StrictTotal(less)
    requires |a| > 0 && |b| > 0 && SortedBy(a, less) && SortedBy(b, less)
    requires a[0] in b && b[0] in a
    ensures a[0] == b[0]
  {
    var i :| 0 <= i < |b| && b[i] == a[0];
    var j :| 0 <= j < |a| && a[j] == b[0];
    assert i == 0 || !less(b[i], b[0]);
    assert j == 0 || !less(a[j], a[0]);
  }

  /** Under a total order only one arrangement of a bag of values is sorted. */
  lemma {:induction false} SortedUnique<T(!new)>(a: seq<T>, b: seq<T>, less: (T, T) -> bool)
    requires StrictTotal(less)
    requires SortedBy(a, less) && SortedBy(b, less)
    requires multiset(a) == multiset(b)
    ensures a == b
    decreases |a|
  {
    hide StrictTotal, SortedBy;
    assert |multiset(a)| == |multiset(b)|;
    if |a| > 0 {
      assert a[0] in multiset(b) && b[0] in multiset(a);
      SortedHead(a, b, less);
      HeadAndTail(a);
      HeadAndTail(b);
      SortedTail(a, less);
      SortedTail(b, less);
      SortedUnique(a[1..], b[1..], less);
    }
  }

  lemma HeadAndTail<T>(a: seq<T>)
    requires |a| > 0
    ensures a == [a[0]] + a[1..] && multiset(a[1..]) == multiset(a) - multiset{a[0]}
  {
    assert a == [a[0]] + a[1..];
  }

  lemma SortedTail<T>(a: seq<T>, less: (T, T) -> bool)
    requires |a| > 0 && SortedBy(a, less)
    ensures SortedBy(a[1..], less)
  {}

  /** keys lists the set ks in increasing order, each string once. */
  ghost predicate SortedListing(keys: seq<string>, ks: set<string>) {
    NoDup(keys) && SortedBy(keys, Less) && forall k :: k in keys <==> k in ks
  }

  lemma SortedListingUnique(a: seq<string>, b: seq<string>, ks: set<string>)
    requires SortedListing(a, ks) && SortedListing(b, ks)
    ensures a == b
  {
    NoDupMultiset(a, b);
    LessStrictTotal();
    SortedUnique(a, b, Less);
  }

  lemma InsertPosition<T(!new)>(ys: seq<T>, i: nat, x: T, less: (T, T) -> bool)
    requires StrictWeak(less) && SortedBy(ys, less) && i <= |ys|
    requires forall j :: i <= j < |ys| ==> less(x, ys[j])
    requires i > 0 ==> !less(x, ys[i - 1])
    ensures forall j :: 0 <= j < i ==> !less(x, ys[j])
    ensures forall j :: i <= j < |ys| ==> !less(ys[j], x)
  {
    forall j | 0 <= j < i ensures !less(x, ys[j]) {
      assert j == i - 1 || !less(ys[i - 1], ys[j]);
    }
  }

  lemma InsertKeepsSorted<T(!new)>(ys: seq<T>, i: nat, x: T, less: (T, T) -> bool)
    requires SortedBy(ys, less) && i <= |ys|
    requires forall j :: 0 <= j < i ==> !less(x, ys[j])
    requires forall j :: i <= j < |ys| ==> !less(ys[j], x)
    ensures SortedBy(ys[..i] + [x] + ys[i..], less)
    ensures multiset(ys[..i] + [x] + ys[i..]) == multiset(ys) + multiset{x}
  {
    var zs := ys[..i] + [x] + ys[i..];
    forall p, q | 0 <= p < q < |zs| ensures !less(zs[q], zs[p]) {
      assert zs[p] == if p < i then ys[p] else if p == i then x else ys[p - 1];
      assert zs[q] == if q < i then ys[q] else if q == i then x else ys[q - 1];
    }
    assert ys == ys[..i] + ys[i..];
  }

  /** sort.Slice: some arrangement of xs in which no later value is less than an earlier one. */
  method SortSlice<T(!new)>(xs: seq<T>, less: (T, T) -> bool) returns (ys: seq<T>)
    requires StrictWeak(less)
    ensures multiset(ys) == multiset(xs)
    ensures SortedBy(ys, less)
  {
    ys := [];
    for k := 0 to |xs|
      invariant multiset(ys) == multiset(xs[..k])
      invariant SortedBy(ys, less)
    {
      var i := |ys|;
      while i > 0 && less(xs[k], ys[i - 1])
        invariant 0 <= i <= |ys|
        invariant forall j :: i <= j < |ys| ==> less(xs[k], ys[j])
      {
        i := i - 1;
      }
      InsertPosition(ys, i, xs[k], less);
      hide SortedBy, StrictWeak;
      InsertKeepsSorted(ys, i, xs[k], less);
      assert xs[..k + 1] == xs[..k] + [xs[k]];
      ys := ys[..i] + [xs[k]] + ys[i..];
    }
    assert xs[..|xs|] == xs;
  }

  /** At most limit values, when the limit is positive. */
  function Limited<T>(s: seq<T>, limit: int): seq<T> {
    if 0 < limit < |s| then s[..limit] else s
  }

  function SetOf(s: seq<string>): set<string> {
    set x | x in s
  }

  lemma {:induction false} SetOfSize(s: seq<string>)
    requires NoDup(s)
    ensures |SetOf(s)| == |s|
  {
    if s != [] {
      var n := |s| - 1;
      SetOfSize(s[..n]);
      assert s == s[..n] + [s[n]];
      assert SetOf(s) == SetOf(s[..n]) + {s[n]};
    }
  }

  lemma ListingSize(keys: seq<string>, ks: set<string>)
    requires SortedListing(keys, ks)
    ensures |keys| == |ks|
  {
    SetOfSize(keys);
    assert SetOf(keys) == ks;
  }

  function Below(ks: set<string>, x: string): set<string> {
    set y | y in ks && Less(y, x)
  }

  /** A value's place in the listing is the number of smaller values. */
  lemma PlaceInListing(keys: seq<string>, ks: set<string>, i: nat)
    requires SortedListing(keys, ks) && i < |keys|
    ensures |Below(ks, keys[i])| == i
  {
    hide Less;
    forall j | 0 <= j < |keys| ensures Less(keys[j], keys[i]) <==> j < i {
      LessTrichotomy(keys[j], keys[i]);
      assert j == i || keys[j] != keys[i];
    }
    SetOfSize(keys[..i]);
    assert Below(ks, keys[i]) == SetOf(keys[..i]);
  }

  /** What a limit keeps of a listing: the values with fewer than that many smaller ones. */
  lemma LimitedListing(keys: seq<string>, ks: set<string>, limit: int, x: string)
    requires SortedListing(keys, ks)
    ensures x in Limited(keys, limit) <==> x in ks && (limit <= 0 || |Below(ks, x)| < limit)
  {
    hide Below;
    if x in ks {
      assert x in keys;
      var i :| 0 <= i < |keys| && keys[i] == x;
      PlaceInListing(keys, ks, i);
    } else {
      assert x !in keys;
    }
  }

  /** Ranging over a map yields its keys once each, in any order. */
  method CollectKeys(ks: set<string>) returns (keys: seq<string>)
    ensures NoDup(keys) && forall k :: k in keys <==> k in ks
  {
    keys := [];
    var todo := ks;
    while todo != {}
      invariant todo <= ks
      invariant NoDup(keys) && forall k :: k in keys <==> k in ks && k !in todo
      decreases |todo|
    {
      var k :| k in todo;
      todo := todo - {k};
      keys := keys + [k];
    }
  }

  lemma SortedSliceIsListing(keys: seq<string>, sorted: seq<string>, ks: set<string>)
    requires NoDup(keys) && forall k :: k in keys <==> k in ks
    requires multiset(sorted) == multiset(keys) && SortedBy(sorted, Less)
    ensures SortedListing(sorted, ks)
  {
    hide Less;
    forall k ensures k in sorted <==> k in ks {
      assert k in multiset(sorted) <==> k in multiset(keys);
    }
    forall i, j | 0 <= i < j < |sorted| ensures sorted[i] != sorted[j] {
      NoDupCount(keys, sorted[i]);
      TwiceCounted(sorted, i, j);
    }
  }

  lemma TwiceCounted(s: seq<string>, i: nat, j: nat)
    requires i < j < |s|
    ensures s[i] == s[j] ==> multiset(s)[s[i]] >= 2
  {
    assert s == s[..i] + [s[i]] + s[i + 1..j] + [s[j]] + s[j + 1..];
  }

  /** Collecting a set's members and sort.Strings. */
  method SortStrings(ks: set<string>) returns (sorted: seq<string>)
    ensures SortedListing(sorted, ks)
  {
    hide Less;
    var keys := CollectKeys(ks);
    LessStrictTotal();
    TotalIsWeak(Less);
    sorted := SortSlice(keys, Less);
    SortedSliceIsListing(keys, sorted, ks);
  }
}
