/** internal/metrics/health/tracker.go: the canonical form of tool arguments and what it identifies. */
module CanonicalArgs {
  import opened Text

  /** Scalars; their JSON text is a single token. */
  datatype Atom = Null | Bool(b: bool) | Number(n: string) | Str(s: string)

  /** A JSON-shaped argument tree. */
  datatype Json = Scalar(a: Atom) | Arr(items: seq<Json>) | Obj(fields: map<string, Json>)

  /** What canonicalize returns: objects become key-sorted lists of kv structs. */
  datatype Canon = CScalar(a: Atom) | CArr(items: seq<Canon>) | CKvs(kvs: seq<Kv>)
  datatype Kv = Kv(k: string, v: Canon)

  // ---- canonicalize -------------------------------------------------------

  lemma {:induction false} LeastKey(ks: set<string>) returns (least: string)
    requires ks != {}
    ensures least in ks && forall k :: k in ks ==> !Less(k, least)
  {
    hide Less;
    var k :| k in ks;
    LessStrictTotal();
    if ks == {k} {
      least := k;
    } else {
      var m := LeastKey(ks - {k});
      least := if Less(k, m) then k else m;
    }
  }

  lemma {:induction false} SortedListingExists(ks: set<string>)
    ensures exists keys :: SortedListing(keys, ks)
  {
    if ks == {} {
      assert SortedListing([], ks);
    } else {
      var least := LeastKey(ks);
      SortedListingExists(ks - {least});
      var rest :| SortedListing(rest, ks - {least});
      SortedListingCons(least, rest, ks);
    }
  }

  lemma SortedListingCons(least: string, rest: seq<string>, ks: set<string>)
    requires least in ks && (forall k :: k in ks ==> !Less(k, least)) && SortedListing(rest, ks - {least})
    ensures SortedListing([least] + rest, ks)
  {
    hide Less;
    var keys := [least] + rest;
    assert forall k :: k in keys <==> k == least || k in rest;
    forall i, j | 0 <= i < j < |keys| ensures !Less(keys[j], keys[i]) && keys[i] != keys[j] {
      assert keys[j] == rest[j - 1] && rest[j - 1] in rest;
      assert i > 0 ==> keys[i] == rest[i - 1];
    }
  }

  /** The keys of a map in increasing order; there is only one such listing. */
  ghost function SortedKeys(ks: set<string>): (keys: seq<string>)
    ensures SortedListing(keys, ks)
  {
    SortedListingExists(ks);
    var keys :| SortedListing(keys, ks);
    keys
  }

  lemma NoKeys()
    ensures SortedKeys({}) == []
  {
    SortedListingUnique(SortedKeys({}), [], {});
  }

  /** The canonical form. */
  ghost function Canonical(j: Json): Canon
    decreases j
  {
    match j
    case Scalar(a) => CScalar(a)
    case Arr(items) => CArr(CanonicalItems(items))
    case Obj(fields) => CKvs(CanonicalFields(j, SortedKeys(fields.Keys)))
  }

  ghost function CanonicalItems(items: seq<Json>): (cs: seq<Canon>)
    ensures |cs| == |items|
    decreases items
  {
    if items == [] then [] else [Canonical(items[0])] + CanonicalItems(items[1..])
  }

  ghost function CanonicalFields(j: Json, keys: seq<string>): (kvs: seq<Kv>)
    requires j.Obj? && forall k :: k in keys ==> k in j.fields
    ensures |kvs| == |keys|
    decreases j, |keys|
  {
    if keys == [] then [] else [Kv(keys[0], Canonical(j.fields[keys[0]]))] + CanonicalFields(j, keys[1..])
  }

  /** canonicalize: map keys are collected in whatever order the runtime yields them, then sorted; the
      result does not depend on that order. */
  method Canonicalize(v: Json) returns (out: Canon)
    ensures out == Canonical(v)
    decreases v
  {
    match v
    case Scalar(a) =>
      out := CScalar(a);
    case Obj(fields) =>
      var keys := SortStrings(fields.Keys);
      SortedListingUnique(keys, SortedKeys(fields.Keys), fields.Keys);
      var kvs := CanonicalizeFields(v, keys);
      out := CKvs(kvs);
    case Arr(items) =>
      var cs := CanonicalizeItems(items);
      out := CArr(cs);
  }

  /** The loop over the sorted keys of an object. */
  method CanonicalizeFields(v: Json, keys: seq<string>) returns (kvs: seq<Kv>)
    requires v.Obj? && forall k :: k in keys ==> k in v.fields
    ensures kvs == CanonicalFields(v, keys)
    decreases v, 0
  {
    hide Canonical;
    kvs := [];
    for i := 0 to |keys|
      invariant kvs + CanonicalFields(v, keys[i..]) == CanonicalFields(v, keys)
    {
      assert keys[i] in keys;
      var value := Canonicalize(v.fields[keys[i]]);
      assert keys[i..][0] == keys[i] && keys[i..][1..] == keys[i + 1..];
      kvs := kvs + [Kv(keys[i], value)];
    }
  }

  /** The loop over the elements of an array. */
  method CanonicalizeItems(items: seq<Json>) returns (cs: seq<Canon>)
    ensures cs == CanonicalItems(items)
    decreases items, 0
  {
    hide Canonical;
    cs := [];
    for i := 0 to |items|
      invariant cs + CanonicalItems(items[i..]) == CanonicalItems(items)
    {
      var c := Canonicalize(items[i]);
      assert items[i..][0] == items[i] && items[i..][1..] == items[i + 1..];
      cs := cs + [c];
    }
  }

  // ---- encoding -----------------------------------------------------------

  datatype Token = Value(a: Atom) | LBracket | RBracket | LBrace | RBrace | Colon | Comma

  /** json.Marshal of a canonical form, as tokens. */
  function Encode(c: Canon): seq<Token>
    decreases c
  {
    match c
    case CScalar(a) => [Value(a)]
    case CArr(items) => [LBracket] + EncodeItems(items) + [RBracket]
    case CKvs(kvs) => [LBracket] + EncodeKvs(kvs) + [RBracket]
  }

  function EncodeItems(items: seq<Canon>): seq<Token>
    decreases items
  {
    if items == [] then []
    else Encode(items[0]) + if |items| == 1 then [] else [Comma] + EncodeItems(items[1..])
  }

  function EncodeKv(kv: Kv): seq<Token>
    decreases kv
  {
    [LBrace, Value(Str("k")), Colon, Value(Str(kv.k)), Comma, Value(Str("v")), Colon] + Encode(kv.v) + [RBrace]
  }

  function EncodeKvs(kvs: seq<Kv>): seq<Token>
    decreases kvs
  {
    if kvs == [] then []
    else EncodeKv(kvs[0]) + if |kvs| == 1 then [] else [Comma] + EncodeKvs(kvs[1..])
  }

  // ---- what equal encodings mean ------------------------------------------

  /** The tree with every empty object replaced by the empty array. */
  ghost function Normal(j: Json): Json
    decreases j
  {
    match j
    case Scalar(_) => j
    case Arr(items) => Arr(NormalItems(items))
    case Obj(fields) =>
      if fields.Keys == {} then Arr([]) else Obj(map k | k in fields :: Normal(fields[k]))
  }

  ghost function NormalItems(items: seq<Json>): (ns: seq<Json>)
    ensures |ns| == |items|
    decreases items
  {
    if items == [] then [] else [Normal(items[0])] + NormalItems(items[1..])
  }

  /** A value starts with a scalar or an opening bracket, never with a brace, comma or closing bracket. */
  lemma Starts(c: Canon)
    ensures Encode(c) != [] && (Encode(c)[0].Value? || Encode(c)[0] == LBracket)
    ensures Encode(c)[0].Value? <==> c.CScalar?
  {}

  lemma ItemsStart(items: seq<Canon>)
    ensures items != [] ==> EncodeItems(items) != []
    ensures items != [] ==> EncodeItems(items)[0].Value? || EncodeItems(items)[0] == LBracket
    ensures items == [] ==> EncodeItems(items) == []
  {
    if items != [] {
      Starts(items[0]);
    }
  }

  lemma KvsStart(kvs: seq<Kv>)
    ensures kvs != [] ==> EncodeKvs(kvs) != [] && EncodeKvs(kvs)[0] == LBrace
    ensures kvs == [] ==> EncodeKvs(kvs) == []
  {
    if kvs != [] {
      assert EncodeKv(kvs[0])[0] == LBrace;
    }
  }

  /** Equal heads can be cut off both sides. */
  lemma CutPrefix<T>(p: seq<T>, a: seq<T>, b: seq<T>)
    requires p + a == p + b
    ensures a == b
  {
    assert (p + a)[|p|..] == a;
    assert (p + b)[|p|..] == b;
  }

  function ItemsTail(items: seq<Canon>, rest: seq<Token>): seq<Token>
    requires items != []
  {
    if |items| == 1 then rest else [Comma] + (EncodeItems(items[1..]) + rest)
  }

  lemma ItemsUnfold(items: seq<Canon>, rest: seq<Token>)
    requires items != []
    ensures EncodeItems(items) + rest == Encode(items[0]) + ItemsTail(items, rest)
  {
    hide Encode;
  }

  function KvsTail(kvs: seq<Kv>, rest: seq<Token>): seq<Token>
    requires kvs != []
  {
    if |kvs| == 1 then rest else [Comma] + (EncodeKvs(kvs[1..]) + rest)
  }

  /** The tokens in front of a field's value. */
  function FieldHead(k: string): seq<Token> {
    [LBrace, Value(Str("k")), Colon, Value(Str(k)), Comma, Value(Str("v")), Colon]
  }

  lemma KvUnfold(kv: Kv)
    ensures EncodeKv(kv) == FieldHead(kv.k) + (Encode(kv.v) + [RBrace])
  {
    hide Encode;
  }

  lemma Regroup<T>(h: seq<T>, e: seq<T>, close: seq<T>, t: seq<T>, rest: seq<T>)
    ensures h + (e + close) + t + rest == h + (e + (close + (t + rest)))
  {}

  lemma KvsUnfold(kvs: seq<Kv>, rest: seq<Token>)
    requires kvs != []
    ensures EncodeKvs(kvs) + rest == FieldHead(kvs[0].k) + (Encode(kvs[0].v) + ([RBrace] + KvsTail(kvs, rest)))
  {
    hide Encode, EncodeKv, FieldHead;
    KvUnfold(kvs[0]);
    var t := if |kvs| == 1 then [] else [Comma] + EncodeKvs(kvs[1..]);
    assert KvsTail(kvs, rest) == t + rest;
    Regroup(FieldHead(kvs[0].k), Encode(kvs[0].v), [RBrace], t, rest);
  }

  lemma ItemsHead(items: seq<Canon>, rest: seq<Token>)
    ensures var head := (EncodeItems(items) + ([RBracket] + rest))[0];
      (items == [] <==> head == RBracket) && (items != [] <==> head.Value? || head == LBracket)
  {
    ItemsStart(items);
  }

  lemma KvsHead(kvs: seq<Kv>, rest: seq<Token>)
    ensures var head := (EncodeKvs(kvs) + ([RBracket] + rest))[0];
      (kvs == [] <==> head == RBracket) && (kvs != [] <==> head == LBrace)
  {
    KvsStart(kvs);
  }

  /** A list of values and a list of fields read alike only when both are empty. */
  lemma MixedLists(items: seq<Canon>, kvs: seq<Kv>, ra: seq<Token>, rb: seq<Token>)
    requires EncodeItems(items) + ([RBracket] + ra) == EncodeKvs(kvs) + ([RBracket] + rb)
    ensures items == [] && kvs == [] && ra == rb
  {
    hide EncodeItems, EncodeKvs;
    ItemsHead(items, ra);
    KvsHead(kvs, rb);
    var l, r := EncodeItems(items) + ([RBracket] + ra), EncodeKvs(kvs) + ([RBracket] + rb);
    assert l[0] == r[0];
    ItemsStart(items);
    KvsStart(kvs);
    assert items == [] && kvs == [] ==> l == [RBracket] + ra && r == [RBracket] + rb;
    if items == [] && kvs == [] {
      CutPrefix([RBracket], ra, rb);
    }
  }

  lemma BracketUnfold(inside: seq<Token>, rest: seq<Token>)
    ensures [LBracket] + inside + [RBracket] + rest == [LBracket] + (inside + ([RBracket] + rest))
  {}

  /** An encoding determines its tree up to empty objects, and where it ends. */
  lemma {:induction false} EncodeInjective(a: Json, b: Json, ra: seq<Token>, rb: seq<Token>)
    requires Encode(Canonical(a)) + ra == Encode(Canonical(b)) + rb
    ensures Normal(a) == Normal(b) && ra == rb
    decreases a
  {
    hide Normal, EncodeItems, EncodeKvs, CanonicalItems, CanonicalFields, SortedKeys;
    var ca, cb := Canonical(a), Canonical(b);
    Starts(ca);
    Starts(cb);
    assert (Encode(ca) + ra)[0] == (Encode(cb) + rb)[0];
    if a.Scalar? {
      assert Encode(ca) == [Value(a.a)] && Encode(cb) == [Value(b.a)];
      CutPrefix([Value(a.a)], ra, rb);
    } else {
      assert !b.Scalar?;
      hide Encode;
      Brackets(ca, ra);
      Brackets(cb, rb);
      CutPrefix([LBracket], Inside(ca) + ([RBracket] + ra), Inside(cb) + ([RBracket] + rb));
      if a.Arr? && b.Arr? {
        ItemsInjective(a.items, b.items, ra, rb);
        NormalArr(a);
        NormalArr(b);
      } else if a.Obj? && b.Obj? {
        var ks, ls := SortedKeys(a.fields.Keys), SortedKeys(b.fields.Keys);
        FieldsInjective(a, ks, b, ls, ra, rb);
        SameFields(a, b, ks);
      } else if a.Arr? {
        MixedLists(ca.items, cb.kvs, ra, rb);
        EmptyLists(a, b);
      } else {
        MixedLists(cb.items, ca.kvs, rb, ra);
        EmptyLists(b, a);
      }
    }
  }

  function Inside(c: Canon): seq<Token>
    requires !c.CScalar?
  {
    if c.CArr? then EncodeItems(c.items) else EncodeKvs(c.kvs)
  }

  lemma Brackets(c: Canon, rest: seq<Token>)
    requires !c.CScalar?
    ensures Encode(c) + rest == [LBracket] + (Inside(c) + ([RBracket] + rest))
  {
    BracketUnfold(Inside(c), rest);
  }

  lemma NormalArr(a: Json)
    requires a.Arr?
    ensures Normal(a) == Arr(NormalItems(a.items))
  {}

  lemma EmptyLists(a: Json, b: Json)
    requires a.Arr? && b.Obj?
    requires CanonicalItems(a.items) == [] && CanonicalFields(b, SortedKeys(b.fields.Keys)) == []
    ensures Normal(a) == Normal(b)
  {
    hide SortedKeys;
    assert SortedKeys(b.fields.Keys) == [];
    forall k ensures k !in b.fields.Keys {
      assert k in b.fields.Keys <==> k in SortedKeys(b.fields.Keys);
    }
    assert b.fields.Keys == {};
  }

  lemma SameFields(a: Json, b: Json, ks: seq<string>)
    requires a.Obj? && b.Obj? && SortedListing(ks, a.fields.Keys) && SortedListing(ks, b.fields.Keys)
    requires forall k :: k in ks ==> Normal(a.fields[k]) == Normal(b.fields[k])
    ensures Normal(a) == Normal(b)
  {
    assert a.fields.Keys == b.fields.Keys;
    assert (map k | k in a.fields :: Normal(a.fields[k])) == (map k | k in b.fields :: Normal(b.fields[k]));
  }

  lemma CutTail(tailA: seq<Token>, tailB: seq<Token>, moreA: seq<Token>, moreB: seq<Token>, lastA: bool, lastB: bool,
      ra: seq<Token>, rb: seq<Token>)
    requires tailA == tailB
    requires tailA == if lastA then [RBracket] + ra else [Comma] + moreA
    requires tailB == if lastB then [RBracket] + rb else [Comma] + moreB
    ensures lastA == lastB
    ensures lastA ==> ra == rb
    ensures !lastA ==> moreA == moreB
  {
    assert tailA[0] == tailB[0];
    assert tailA[1..] == tailB[1..];
  }

  lemma {:induction false} ItemsInjective(xs: seq<Json>, ys: seq<Json>, ra: seq<Token>, rb: seq<Token>)
    requires EncodeItems(CanonicalItems(xs)) + ([RBracket] + ra) == EncodeItems(CanonicalItems(ys)) + ([RBracket] + rb)
    ensures NormalItems(xs) == NormalItems(ys) && ra == rb
    decreases xs
  {
    hide EncodeItems, Encode, Canonical, Normal;
    var cx, cy := CanonicalItems(xs), CanonicalItems(ys);
    ItemsHead(cx, ra);
    ItemsHead(cy, rb);
    ItemsStart(cx);
    ItemsStart(cy);
    var l, r := EncodeItems(cx) + ([RBracket] + ra), EncodeItems(cy) + ([RBracket] + rb);
    assert l[0] == r[0];
    if xs == [] {
      assert l == [RBracket] + ra && r == [RBracket] + rb;
      CutPrefix([RBracket], ra, rb);
    } else {
      ItemsUnfold(cx, [RBracket] + ra);
      ItemsUnfold(cy, [RBracket] + rb);
      var tx, ty := ItemsTail(cx, [RBracket] + ra), ItemsTail(cy, [RBracket] + rb);
      EncodeInjective(xs[0], ys[0], tx, ty);
      var mx, my := EncodeItems(cx[1..]) + ([RBracket] + ra), EncodeItems(cy[1..]) + ([RBracket] + rb);
      CutTail(tx, ty, mx, my, |xs| == 1, |ys| == 1, ra, rb);
      if |xs| > 1 {
        ItemsInjective(xs[1..], ys[1..], ra, rb);
      }
    }
  }

  lemma CutFieldHead(k: string, l: string, a: seq<Token>, b: seq<Token>)
    requires FieldHead(k) + a == FieldHead(l) + b
    ensures k == l && a == b
  {
    assert (FieldHead(k) + a)[3] == Value(Str(k));
    assert (FieldHead(l) + b)[3] == Value(Str(l));
    CutPrefix(FieldHead(k), a, b);
  }

  lemma {:induction false} FieldsInjective(a: Json, ks: seq<string>, b: Json, ls: seq<string>, ra: seq<Token>,
      rb: seq<Token>)
    requires a.Obj? && b.Obj? && (forall k :: k in ks ==> k in a.fields) && (forall l :: l in ls ==> l in b.fields)
    requires EncodeKvs(CanonicalFields(a, ks)) + ([RBracket] + ra)
        == EncodeKvs(CanonicalFields(b, ls)) + ([RBracket] + rb)
    ensures ks == ls && ra == rb && forall k :: k in ks ==> Normal(a.fields[k]) == Normal(b.fields[k])
    decreases a, |ks|
  {
    hide EncodeKvs, Encode, Canonical, Normal, FieldHead;
    var ca, cb := CanonicalFields(a, ks), CanonicalFields(b, ls);
    KvsHead(ca, ra);
    KvsHead(cb, rb);
    KvsStart(ca);
    KvsStart(cb);
    var l, r := EncodeKvs(ca) + ([RBracket] + ra), EncodeKvs(cb) + ([RBracket] + rb);
    assert l[0] == r[0];
    if ks == [] {
      assert l == [RBracket] + ra && r == [RBracket] + rb;
      CutPrefix([RBracket], ra, rb);
    } else {
      FirstField(a, ks, b, ls, ra, rb);
      var k := ks[0];
      assert k in ks && ls[0] in ls;
      var ta, tb := KvsTail(ca, [RBracket] + ra), KvsTail(cb, [RBracket] + rb);
      EncodeInjective(a.fields[k], b.fields[k], [RBrace] + ta, [RBrace] + tb);
      CutPrefix([RBrace], ta, tb);
      var ma, mb := EncodeKvs(ca[1..]) + ([RBracket] + ra), EncodeKvs(cb[1..]) + ([RBracket] + rb);
      CutTail(ta, tb, ma, mb, |ks| == 1, |ls| == 1, ra, rb);
      if |ks| > 1 {
        FieldsInjective(a, ks[1..], b, ls[1..], ra, rb);
      }
      assert ks == [k] + ks[1..] && ls == [ls[0]] + ls[1..];
    }
  }

  /** Two non-empty field lists that read alike start with the same key. */
  lemma FirstField(a: Json, ks: seq<string>, b: Json, ls: seq<string>, ra: seq<Token>, rb: seq<Token>)
    requires a.Obj? && b.Obj? && (forall k :: k in ks ==> k in a.fields) && (forall l :: l in ls ==> l in b.fields)
    requires ks != [] && ls != []
    requires EncodeKvs(CanonicalFields(a, ks)) + ([RBracket] + ra)
        == EncodeKvs(CanonicalFields(b, ls)) + ([RBracket] + rb)
    ensures ks[0] == ls[0] && ks[0] in a.fields && ks[0] in b.fields
    ensures Encode(Canonical(a.fields[ks[0]])) + ([RBrace] + KvsTail(CanonicalFields(a, ks), [RBracket] + ra))
         == Encode(Canonical(b.fields[ks[0]])) + ([RBrace] + KvsTail(CanonicalFields(b, ls), [RBracket] + rb))
  {
    hide EncodeKvs, Encode, Canonical, FieldHead, KvsTail;
    var ca, cb := CanonicalFields(a, ks), CanonicalFields(b, ls);
    assert ks[0] in ks && ls[0] in ls;
    KvsUnfold(ca, [RBracket] + ra);
    KvsUnfold(cb, [RBracket] + rb);
    CutFieldHead(ks[0], ls[0],
      Encode(ca[0].v) + ([RBrace] + KvsTail(ca, [RBracket] + ra)),
      Encode(cb[0].v) + ([RBrace] + KvsTail(cb, [RBracket] + rb)));
  }

  /** Replacing empty objects by empty arrays does not show in the encoding. */
  lemma {:induction false} EncodeNormal(j: Json)
    ensures Encode(Canonical(j)) == Encode(Canonical(Normal(j)))
    decreases j
  {
    match j
    case Scalar(_) =>
    case Arr(items) =>
      hide EncodeItems, CanonicalItems, NormalItems;
      EncodeNormalItems(items);
    case Obj(fields) =>
      var keys := SortedKeys(fields.Keys);
      if fields.Keys == {} {
        NoKeys();
        assert EncodeItems(CanonicalItems([])) == [];
      } else {
        hide EncodeKvs, CanonicalFields;
        var n := Normal(j);
        assert n.fields.Keys == fields.Keys;
        EncodeNormalFields(j, n, keys);
      }
  }

  lemma {:induction false} EncodeNormalItems(items: seq<Json>)
    ensures EncodeItems(CanonicalItems(items)) == EncodeItems(CanonicalItems(NormalItems(items)))
    decreases items
  {
    hide Encode, Canonical, Normal;
    if items != [] {
      EncodeNormal(items[0]);
      EncodeNormalItems(items[1..]);
      assert NormalItems(items)[1..] == NormalItems(items[1..]);
    }
  }

  lemma {:induction false} EncodeNormalFields(j: Json, n: Json, keys: seq<string>)
    requires j.Obj? && n.Obj? && n.fields.Keys == j.fields.Keys
    requires forall k :: k in keys ==> k in j.fields
    requires forall k :: k in j.fields ==> n.fields[k] == Normal(j.fields[k])
    ensures EncodeKvs(CanonicalFields(j, keys)) == EncodeKvs(CanonicalFields(n, keys))
    decreases j, |keys|
  {
    hide Encode, Canonical, Normal;
    if keys != [] {
      assert keys[0] in keys;
      EncodeNormal(j.fields[keys[0]]);
      EncodeNormalFields(j, n, keys[1..]);
    }
  }

  /** Two argument trees are fingerprinted from the same text exactly when they are equal once the empty
      object is identified with the empty array. */
  lemma CanonicalTextExact(a: Json, b: Json)
    ensures Encode(Canonical(a)) == Encode(Canonical(b)) <==> Normal(a) == Normal(b)
  {
    hide Encode, Canonical, Normal;
    if Encode(Canonical(a)) == Encode(Canonical(b)) {
      EncodeInjective(a, b, [], []);
    }
    EncodeNormal(a);
    EncodeNormal(b);
  }

  /** The one collision there is. */
  lemma EmptyObjectIsEmptyArray()
    ensures Encode(Canonical(Obj(map[]))) == Encode(Canonical(Arr([])))
  {
    CanonicalTextExact(Obj(map[]), Arr([]));
    var none: map<string, Json> := map[];
    assert none.Keys == {};
  }
}
