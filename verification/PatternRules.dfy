/**
  * What each form of pattern in `Patterns` matches and binds, in terms of its parts, and small matches
  * worked out.
  */
module PatternRules {
  import opened Options
  import opened Sequences
  import opened Patterns

  // ---------------------------------------------------------------------------------------------
  // Captures, pins and alternatives
  // ---------------------------------------------------------------------------------------------

  /** `a` and `b` say the same about every name but `x`. */
  ghost predicate SameBut(a: Bound, b: Bound, x: string) {
    forall n :: n != x ==> (n in a <==> n in b) && (n in a ==> a[n] == b[n])
  }

  /** `PATTERN => x` matches what `PATTERN` matches and binds `x` to the whole value. */
  lemma CaptureRule(c: Context, v: Value, sub: Pattern, x: string)
    ensures Matches(c, v, Capture(sub, Some(x))) <==> Matches(c, v, sub)
    ensures Matches(c, v, sub) ==>
              var w := Written(c, v, Capture(sub, Some(x)));
              x in w && w[x] == v && SameBut(w, Written(c, v, sub), x)
    ensures !Matches(c, v, sub) ==> Written(c, v, Capture(sub, Some(x))) == Written(c, v, sub)
  {
  }

  /** `^x` takes the value of `x` and no other. */
  lemma PinRule(c: Context, v: Value, x: string, u: Value)
    requires c.pinned(x) == Some(u)
    ensures Matches(c, v, Pin(x)) <==> v == u
    ensures Written(c, v, Pin(x)) == map[]
  {
  }

  lemma UnknownPin(c: Context, v: Value, x: string)
    requires c.pinned(x) == None
    ensures !Matches(c, v, Pin(x))
  {
  }

  /** The left arm goes first; what the right arm binds wins over what a failed left arm has written. */
  lemma OrRule(c: Context, v: Value, l: Pattern, r: Pattern)
    ensures Matches(c, v, Or(l, r)) <==> Matches(c, v, l) || Matches(c, v, r)
    ensures Matches(c, v, l) ==> Written(c, v, Or(l, r)) == Written(c, v, l)
    ensures !Matches(c, v, l) ==> Includes(Written(c, v, Or(l, r)), Written(c, v, r))
  {
  }

  /** A value that is no array or hash is taken apart by its own method, which gets the keys unless a rest follows. */
  lemma DeconstructRule(c: Context, v: Value, p: Pattern, named: seq<Value>)
    requires p.HashPat? ==> |named| == |p.pairs| && forall i :: 0 <= i < |named| ==> named[i] == Sym(p.pairs[i].0)
    ensures p.ArrPat? && !v.Arr? ==>
              match c.deconstruct(v)
              case None => !Matches(c, v, p) && Written(c, v, p) == map[]
              case Some(a) => Matches(c, v, p) == Matches(c, Arr(a), p) && Written(c, v, p) == Written(c, Arr(a), p)
    ensures p.HashPat? && !v.Hash? ==>
              match c.deconstructKeys(v, if p.rest.Splat? then Nil else Arr(named))
              case None => !Matches(c, v, p) && Written(c, v, p) == map[]
              case Some(h) => Matches(c, v, p) == Matches(c, Hash(h), p) && Written(c, v, p) == Written(c, Hash(h), p)
  {
    if p.HashPat? {
      assert Keys(p.pairs) == named;
    }
  }

  // ---------------------------------------------------------------------------------------------
  // Array patterns
  // ---------------------------------------------------------------------------------------------

  ghost predicate AllMatch(c: Context, m: seq<Value>, ps: seq<Pattern>) {
    |m| == |ps| && forall i :: 0 <= i < |ps| ==> Matches(c, m[i], ps[i])
  }

  /** `a` is `b`, then one value for each element pattern, then `d`; only a splat takes anything in `b` or `d`. */
  ghost predicate Splits(c: Context, a: seq<Value>, p: Pattern, b: seq<Value>, m: seq<Value>, d: seq<Value>)
    requires p.ArrPat?
  {
    && a == b + m + d && AllMatch(c, m, p.elems)
    && (p.pre.NoRest? ==> b == []) && (p.post.NoRest? ==> d == [])
    && (p.pre.Splat? && p.post.Splat? ==> p.elems != [])
  }

  /** An array pattern matches exactly the arrays that split in this way. */
  lemma ArrayRule(c: Context, a: seq<Value>, p: Pattern)
    requires p.ArrPat?
    ensures Matches(c, Arr(a), p) <==> exists b, m, d :: Splits(c, a, p, b, m, d)
  {
    if Matches(c, Arr(a), p) {
      var b, m, d := LeftmostSplit(c, a, p);
    }
    if exists b, m, d :: Splits(c, a, p, b, m, d) {
      var b, m, d :| Splits(c, a, p, b, m, d);
      SplitMatches(c, a, p, b, m, d);
    }
  }

  lemma SplitIsWindow(c: Context, a: seq<Value>, ps: seq<Pattern>, b: seq<Value>, m: seq<Value>, d: seq<Value>)
    requires a == b + m + d && |m| == |ps|
    ensures AllMatch(c, m, ps) <==> Window(c, a, ps, |b|)
  {
    assert forall i :: 0 <= i < |m| ==> a[|b| + i] == m[i];
  }

  lemma SplitMatches(c: Context, a: seq<Value>, p: Pattern, b: seq<Value>, m: seq<Value>, d: seq<Value>)
    requires p.ArrPat? && Splits(c, a, p, b, m, d)
    ensures Matches(c, Arr(a), p)
  {
    SplitIsWindow(c, a, p.elems, b, m, d);
    HasWindowIffSome(c, a, p.elems, 0);
  }

  /** No other split starts further left. */
  ghost predicate SplitsLeftmost(c: Context, a: seq<Value>, p: Pattern, b: seq<Value>, m: seq<Value>, d: seq<Value>)
    requires p.ArrPat?
  {
    Splits(c, a, p, b, m, d) && forall b', m', d' :: Splits(c, a, p, b', m', d') ==> |b| <= |b'|
  }

  /** Of several splits, which only a pattern with two splats has, the leftmost is taken. */
  lemma LeftmostSplit(c: Context, a: seq<Value>, p: Pattern)
    returns (b: seq<Value>, m: seq<Value>, d: seq<Value>)
    requires p.ArrPat? && Matches(c, Arr(a), p)
    ensures SplitsLeftmost(c, a, p, b, m, d)
    ensures
      var s := Start(c, a, p);
      s + |p.elems| <= |a| && b == a[..s] && m == a[s..s + |p.elems|] && d == a[s + |p.elems|..]
  {
    StartOfMatch(c, a, p);
    var s, n := Start(c, a, p), |p.elems|;
    b, m, d := a[..s], a[s..s + n], a[s + n..];
    assert a == b + m + d;
    SplitIsWindow(c, a, p.elems, b, m, d);
    forall b', m', d' | Splits(c, a, p, b', m', d')
      ensures |b| <= |b'|
    {
      SplitIsWindow(c, a, p.elems, b', m', d');
    }
  }

  /** `written` says what `part` says about every name that is not bound again later. */
  ghost predicate Keeps(written: Bound, part: Bound, later: set<string>) {
    forall n :: n in part && n !in later ==> n in written && written[n] == part[n]
  }

  lemma KeepsOver(before: Bound, written: Bound, part: Bound, later: set<string>)
    requires Keeps(written, part, later)
    ensures Keeps(before + written, part, later)
  {
  }

  lemma KeepsUnder(written: Bound, part: Bound, later: set<string>, after: Bound, names: set<string>)
    requires Keeps(written, part, later) && after.Keys <= names
    ensures Keeps(written + after, part, later + names)
  {
  }

  /** The named rests are bound to `b` and `d`; where both have the same name, to `d`. */
  ghost predicate RestsBound(written: Bound, p: Pattern, b: seq<Value>, d: seq<Value>)
    requires p.ArrPat?
  {
    && (forall x :: p.post == Splat(Some(x)) ==> x in written && written[x] == Arr(d))
    && (forall x :: p.pre == Splat(Some(x)) && p.post != Splat(Some(x)) ==> x in written && written[x] == Arr(b))
  }

  lemma RestsBind(from: Bound, a: seq<Value>, p: Pattern, s: nat, b: seq<Value>, d: seq<Value>)
    requires p.ArrPat? && s + |p.elems| <= |a| && b == a[..s] && d == a[s + |p.elems|..]
    ensures RestsBound(from + Rests(a, p, s), p, b, d)
  {
  }

  /** Each element binds what it binds alone, unless a later part binds the same name. */
  ghost predicate ElementsBound(c: Context, written: Bound, m: seq<Value>, p: Pattern)
    requires p.ArrPat? && |m| == |p.elems|
  {
    forall i :: 0 <= i < |m| ==>
      Keeps(written, Written(c, m[i], p.elems[i]), NamesFrom(p.elems, i + 1) + (RestNames(p.pre) + RestNames(p.post)))
  }

  lemma ElementsBind(c: Context, a: seq<Value>, p: Pattern, s: nat, m: seq<Value>)
    requires p.ArrPat? && s + |p.elems| <= |a| && Window(c, a, p.elems, s) && m == a[s..s + |p.elems|]
    ensures ElementsBound(c, WrittenFrom(c, a, p.elems, s, 0) + Rests(a, p, s), m, p)
  {
    var from, rests, names := WrittenFrom(c, a, p.elems, s, 0), Rests(a, p, s), RestNames(p.pre) + RestNames(p.post);
    forall i | 0 <= i < |m|
      ensures Keeps(from + rests, Written(c, m[i], p.elems[i]), NamesFrom(p.elems, i + 1) + names)
    {
      WrittenAtElement(c, a, p.elems, s, 0, i);
      KeepsUnder(from, Written(c, m[i], p.elems[i]), NamesFrom(p.elems, i + 1), rests, names);
    }
  }

  /** A match binds what its elements bind, and the rests to what is left over on either side. */
  lemma ArrayBinds(c: Context, a: seq<Value>, p: Pattern)
    returns (b: seq<Value>, m: seq<Value>, d: seq<Value>)
    requires p.ArrPat? && Matches(c, Arr(a), p)
    ensures SplitsLeftmost(c, a, p, b, m, d)
    ensures ElementsBound(c, Written(c, Arr(a), p), m, p) && RestsBound(Written(c, Arr(a), p), p, b, d)
  {
    b, m, d := LeftmostSplit(c, a, p);
    StartOfMatch(c, a, p);
    var s := Start(c, a, p);
    assert Elements(c, Arr(a)) == Some(a);
    assert Written(c, Arr(a), p) == WrittenFrom(c, a, p.elems, s, 0) + Rests(a, p, s);
    ElementsBind(c, a, p, s, m);
    RestsBind(WrittenFrom(c, a, p.elems, s, 0), a, p, s, b, d);
  }

  lemma {:induction false} WrittenAtElement(c: Context, a: seq<Value>, ps: seq<Pattern>, s: nat, k: nat, i: nat)
    requires s + |ps| <= |a| && Window(c, a, ps, s) && k <= i < |ps|
    ensures Keeps(WrittenFrom(c, a, ps, s, k), Written(c, a[s + i], ps[i]), NamesFrom(ps, i + 1))
    decreases i - k
  {
    var here, rest := Written(c, a[s + k], ps[k]), WrittenFrom(c, a, ps, s, k + 1);
    assert WrittenFrom(c, a, ps, s, k) == here + rest;
    if k < i {
      WrittenAtElement(c, a, ps, s, k + 1, i);
      KeepsOver(here, rest, Written(c, a[s + i], ps[i]), NamesFrom(ps, i + 1));
    } else {
      WrittenFromWithin(c, a, ps, s, i + 1);
      KeepsUnder(here, here, {}, rest, NamesFrom(ps, i + 1));
      assert {} + NamesFrom(ps, i + 1) == NamesFrom(ps, i + 1);
    }
  }

  lemma {:induction false} WrittenFromWithin(c: Context, a: seq<Value>, ps: seq<Pattern>, s: nat, i: nat)
    requires s + |ps| <= |a| && i <= |ps|
    ensures WrittenFrom(c, a, ps, s, i).Keys <= NamesFrom(ps, i)
    decreases |ps| - i
  {
    if i == |ps| {
    } else {
      WrittenNames(c, a[s + i], ps[i]);
      WrittenFromWithin(c, a, ps, s, i + 1);
    }
  }

  // ---------------------------------------------------------------------------------------------
  // Hash patterns
  // ---------------------------------------------------------------------------------------------

  /** The first entry of `h` with that key stands at position `k`. */
  ghost predicate FirstAt(h: seq<(Value, Value)>, key: Value, k: nat) {
    k < |h| && h[k].0 == key && forall j :: 0 <= j < k ==> h[j].0 != key
  }

  lemma {:induction false} LookupAt(h: seq<(Value, Value)>, key: Value, k: nat)
    requires FirstAt(h, key, k)
    ensures Lookup(h, key) == Some(h[k].1)
    decreases k
  {
    if k == 0 {
    } else {
      assert h[0].0 != key;
      assert FirstAt(h[1..], key, k - 1) by {
        assert forall j :: 0 <= j < k - 1 ==> h[1..][j].0 == h[j + 1].0;
      }
      LookupAt(h[1..], key, k - 1);
    }
  }

  lemma {:induction false} FirstEntry(h: seq<(Value, Value)>, key: Value, i: nat) returns (k: nat)
    requires i < |h| && h[i].0 == key
    ensures FirstAt(h, key, k)
    decreases i
  {
    if exists j :: 0 <= j < i && h[j].0 == key {
      var j :| 0 <= j < i && h[j].0 == key;
      k := FirstEntry(h, key, j);
    } else {
      k := i;
    }
  }

  /** A hash pattern matches when each key's first entry does; only the shorthand `key:` may be without one. */
  lemma HashRule(c: Context, h: seq<(Value, Value)>, p: Pattern)
    requires p.HashPat?
    ensures Matches(c, Hash(h), p) <==>
              forall i :: 0 <= i < |p.pairs| ==>
                || (Bare(p.pairs[i].1) && forall j :: 0 <= j < |h| ==> h[j].0 != Sym(p.pairs[i].0))
                || exists k: nat :: FirstAt(h, Sym(p.pairs[i].0), k) && Matches(c, h[k].1, p.pairs[i].1)
  {
    forall i | 0 <= i < |p.pairs|
      ensures PairMatches(c, h, p.pairs[i].0, p.pairs[i].1) <==>
                || (Bare(p.pairs[i].1) && forall j :: 0 <= j < |h| ==> h[j].0 != Sym(p.pairs[i].0))
                || exists k: nat :: FirstAt(h, Sym(p.pairs[i].0), k) && Matches(c, h[k].1, p.pairs[i].1)
    {
      PairRule(c, h, p.pairs[i].0, p.pairs[i].1);
    }
  }

  lemma PairRule(c: Context, h: seq<(Value, Value)>, key: string, q: Pattern)
    ensures PairMatches(c, h, key, q) <==>
              || (Bare(q) && forall j :: 0 <= j < |h| ==> h[j].0 != Sym(key))
              || exists k: nat :: FirstAt(h, Sym(key), k) && Matches(c, h[k].1, q)
  {
    if i: nat :| i < |h| && h[i].0 == Sym(key) {
      var k := FirstEntry(h, Sym(key), i);
      forall j: nat | FirstAt(h, Sym(key), j)
        ensures Lookup(h, Sym(key)) == Some(h[j].1)
      {
        LookupAt(h, Sym(key), j);
      }
    } else {
      assert Lookup(h, Sym(key)).None?;
    }
  }

  /** No key occurs twice, as in every hash. */
  ghost predicate Distinct(h: seq<(Value, Value)>) {
    forall i, j :: 0 <= i < j < |h| ==> h[i].0 != h[j].0
  }

  lemma {:induction false} SetNew(h: seq<(Value, Value)>, key: Value, v: Value)
    requires forall i :: 0 <= i < |h| ==> h[i].0 != key
    ensures HashSet(h, key, v) == h + [(key, v)]
  {
    if h == [] {
    } else {
      assert h[0].0 != key;
      SetNew(h[1..], key, v);
    }
  }

  /** The rest of a hash: its entries under other keys than the named ones, all of them, in their order. */
  lemma {:induction false} RestExact(h: seq<(Value, Value)>, keys: seq<Value>) returns (idx: seq<nat>)
    requires Distinct(h)
    ensures Positions(idx, h, (e: (Value, Value)) => e.0 !in keys) && Selects(Unmentioned(h, keys), idx, h)
    decreases |h|
  {
    var other := (e: (Value, Value)) => e.0 !in keys;
    if h == [] {
      idx := [];
    } else {
      var init, x := h[..|h| - 1], h[|h| - 1];
      assert h == init + [x];
      idx := RestExact(init, keys);
      var r := Unmentioned(init, keys);
      PositionsSnoc(idx, init, x, other);
      SelectsSnoc(r, idx, init, x);
      if other(x) {
        forall i | 0 <= i < |r|
          ensures r[i].0 != x.0
        {
          assert r[i] == init[idx[i]] == h[idx[i]];
        }
        SetNew(r, x.0, x.1);
        idx := idx + [|init|];
      }
    }
  }

  /** Whatever the hash, the rest holds none of the named keys. */
  lemma {:induction false} RestLeavesOut(h: seq<(Value, Value)>, keys: seq<Value>, key: Value)
    requires key in keys
    ensures Lookup(Unmentioned(h, keys), key) == None
    decreases |h|
  {
    if h == [] {
    } else {
      var last := h[|h| - 1];
      RestLeavesOut(h[..|h| - 1], keys, key);
      if last.0 !in keys {
        SetOther(Unmentioned(h[..|h| - 1], keys), last.0, last.1, key);
      }
    }
  }

  lemma {:induction false} SetOther(h: seq<(Value, Value)>, key: Value, v: Value, other: Value)
    requires key != other
    ensures Lookup(HashSet(h, key, v), other) == Lookup(h, other)
  {
    if h == [] {
      assert [(key, v)][1..] == [];
    } else if h[0].0 == key {
      assert ([(key, v)] + h[1..])[1..] == h[1..];
    } else {
      assert ([h[0]] + HashSet(h[1..], key, v))[1..] == HashSet(h[1..], key, v);
      SetOther(h[1..], key, v, other);
    }
  }

  /** ... and every other key as the hash has it. */
  lemma RestKeeps(h: seq<(Value, Value)>, keys: seq<Value>, key: Value)
    requires Distinct(h) && key !in keys
    ensures Lookup(Unmentioned(h, keys), key) == Lookup(h, key)
  {
    var r := Unmentioned(h, keys);
    var idx := RestExact(h, keys);
    if i: nat :| i < |h| && h[i].0 == key {
      LookupAt(h, key, i);
      assert i in idx;
      var k :| 0 <= k < |idx| && idx[k] == i;
      assert r[k] == h[i];
      forall j | 0 <= j < k
        ensures r[j].0 != key
      {
        assert r[j] == h[idx[j]];
      }
      LookupAt(r, key, k);
    } else {
      forall j | 0 <= j < |r|
        ensures r[j].0 != key
      {
        assert r[j] == h[idx[j]];
      }
    }
  }

  /** After a match with `**x`, `x` is bound to exactly the entries under keys that the pattern does not name. */
  lemma HashBindsRest(c: Context, h: seq<(Value, Value)>, p: Pattern, x: string, named: seq<Value>)
    returns (rest: seq<(Value, Value)>, idx: seq<nat>)
    requires p.HashPat? && p.rest == Splat(Some(x)) && Distinct(h) && Matches(c, Hash(h), p)
    requires |named| == |p.pairs| && forall i :: 0 <= i < |named| ==> named[i] == Sym(p.pairs[i].0)
    ensures x in Written(c, Hash(h), p) && Written(c, Hash(h), p)[x] == Hash(rest)
    ensures Positions(idx, h, (e: (Value, Value)) => e.0 !in named) && Selects(rest, idx, h)
  {
    assert Keys(p.pairs) == named;
    rest := Unmentioned(h, named);
    idx := RestExact(h, named);
    assert HashRest(h, p) == map[x := Hash(rest)];
  }

  /** What the value under a key binds is what the hash pattern binds, unless a later part binds the same name. */
  lemma HashBindsPair(c: Context, h: seq<(Value, Value)>, p: Pattern, i: nat, k: nat)
    requires p.HashPat? && Matches(c, Hash(h), p) && i < |p.pairs| && FirstAt(h, Sym(p.pairs[i].0), k)
    ensures Keeps(Written(c, Hash(h), p), Written(c, h[k].1, p.pairs[i].1),
                  PairNamesFrom(p.pairs, i + 1) + RestNames(p.rest))
  {
    var part := Written(c, h[k].1, p.pairs[i].1);
    LookupAt(h, Sym(p.pairs[i].0), k);
    WrittenAtPair(c, h, p, 0, i);
    assert Entries(c, Hash(h), p) == Some(h) && Written(c, Hash(h), p) == WrittenPairs(c, h, p, 0) + HashRest(h, p);
    KeepsUnder(WrittenPairs(c, h, p, 0), part, PairNamesFrom(p.pairs, i + 1), HashRest(h, p), RestNames(p.rest));
  }

  lemma {:induction false} WrittenAtPair(c: Context, h: seq<(Value, Value)>, p: Pattern, k: nat, i: nat)
    requires p.HashPat? && HashMatches(c, h, p) && k <= i < |p.pairs|
    ensures Keeps(WrittenPairs(c, h, p, k), WrittenPair(c, h, p.pairs[i].0, p.pairs[i].1),
                  PairNamesFrom(p.pairs, i + 1))
    decreases i - k
  {
    var here, rest := WrittenPair(c, h, p.pairs[k].0, p.pairs[k].1), WrittenPairs(c, h, p, k + 1);
    PairFirst(c, h, p, k);
    if k < i {
      WrittenAtPair(c, h, p, k + 1, i);
      KeepsOver(here, rest, WrittenPair(c, h, p.pairs[i].0, p.pairs[i].1), PairNamesFrom(p.pairs, i + 1));
    } else {
      WrittenPairsWithin(c, h, p, i + 1);
      KeepsUnder(here, here, {}, rest, PairNamesFrom(p.pairs, i + 1));
      assert {} + PairNamesFrom(p.pairs, i + 1) == PairNamesFrom(p.pairs, i + 1);
    }
  }

  lemma PairFirst(c: Context, h: seq<(Value, Value)>, p: Pattern, k: nat)
    requires p.HashPat? && HashMatches(c, h, p) && k < |p.pairs|
    ensures WrittenPairs(c, h, p, k) == WrittenPair(c, h, p.pairs[k].0, p.pairs[k].1) + WrittenPairs(c, h, p, k + 1)
  {
    assert PairMatches(c, h, p.pairs[k].0, p.pairs[k].1);
  }

  lemma {:induction false} WrittenPairsWithin(c: Context, h: seq<(Value, Value)>, p: Pattern, i: nat)
    requires p.HashPat? && i <= |p.pairs|
    ensures WrittenPairs(c, h, p, i).Keys <= PairNamesFrom(p.pairs, i)
    decreases |p.pairs| - i
  {
    if i == |p.pairs| {
    } else {
      var found := Lookup(h, Sym(p.pairs[i].0));
      if found.Some? {
        WrittenNames(c, found.value, p.pairs[i].1);
      }
      WrittenPairsWithin(c, h, p, i + 1);
    }
  }

  // ---------------------------------------------------------------------------------------------
  // Matches worked out
  // ---------------------------------------------------------------------------------------------

  /** `{a: 1, b: 2} in {a:, **rest}` */
  method TakeRest(c: Context) returns (ok: bool, bound: Bound)
    ensures ok && bound == map["a" := Int(1), "rest" := Hash([(Sym("b"), Int(2))])]
  {
    var h := [(Sym("a"), Int(1)), (Sym("b"), Int(2))];
    var p := HashPat([("a", Capture(Wild, Some("a")))], Splat(Some("rest")));
    var env := new Scratch();
    ok := MatchPattern(c, env, Hash(h), p);
    bound := env.bound;
    RestOfTwo(c, h, p);
  }

  lemma RestOfTwo(c: Context, h: seq<(Value, Value)>, p: Pattern)
    requires h == [(Sym("a"), Int(1)), (Sym("b"), Int(2))]
    requires p == HashPat([("a", Capture(Wild, Some("a")))], Splat(Some("rest")))
    ensures Matches(c, Hash(h), p)
    ensures map[] + Written(c, Hash(h), p) == map["a" := Int(1), "rest" := Hash([(Sym("b"), Int(2))])]
  {
    assert p.pairs[0] == ("a", Capture(Wild, Some("a")));
    LookupAt(h, Sym("a"), 0);
    assert Keys(p.pairs) == [Sym("a")];
    assert h[..1][..0] == [] && Unmentioned(h[..1], [Sym("a")]) == [];
    assert Unmentioned(h, [Sym("a")]) == HashSet([], Sym("b"), Int(2)) == [(Sym("b"), Int(2))];
    assert WrittenPairs(c, h, p, 1) == map[];
    assert WrittenPairs(c, h, p, 0) == map["a" := Int(1)];
  }

  /** `[1, 2, 3, 2] in [*before, 2, x, *after]` */
  method TakeMiddle(c: Context) returns (ok: bool, bound: Bound)
    ensures ok && bound == map["before" := Arr([Int(1)]), "x" := Int(3), "after" := Arr([Int(2)])]
  {
    var a := [Int(1), Int(2), Int(3), Int(2)];
    var p := ArrPat(Splat(Some("before")), [Lit(Int(2)), Capture(Wild, Some("x"))], Splat(Some("after")));
    var env := new Scratch();
    ok := MatchPattern(c, env, Arr(a), p);
    bound := env.bound;
    MiddleOfFour(c, a, p);
  }

  lemma MiddleOfFour(c: Context, a: seq<Value>, p: Pattern)
    requires a == [Int(1), Int(2), Int(3), Int(2)]
    requires p == ArrPat(Splat(Some("before")), [Lit(Int(2)), Capture(Wild, Some("x"))], Splat(Some("after")))
    ensures Matches(c, Arr(a), p)
    ensures map[] + Written(c, Arr(a), p) == map["before" := Arr([Int(1)]), "x" := Int(3), "after" := Arr([Int(2)])]
  {
    SecondWindow(c, a, p.elems);
    assert a[..1] == [Int(1)] && a[1 + |p.elems|..] == [Int(2)];
    FoundAt(c, a, p, 1, Arr([Int(1)]), Arr([Int(2)]));
    ThreeNames("before", Arr([Int(1)]), "x", Int(3), "after", Arr([Int(2)]));
  }

  lemma ThreeNames(b: string, u: Value, x: string, v: Value, d: string, w: Value)
    requires b != x && x != d && b != d
    ensures map[] + (map[x := v] + (map[b := u] + map[d := w])) == map[b := u, x := v, d := w]
  {
  }

  lemma FoundAt(c: Context, a: seq<Value>, p: Pattern, s: nat, before: Value, after: Value)
    requires p.ArrPat? && p.pre.Splat? && p.post.Splat? && 0 < |p.elems| && s + |p.elems| <= |a|
    requires Window(c, a, p.elems, s) && FirstWindow(c, a, p.elems, 0) == s
    requires before == Arr(a[..s]) && after == Arr(a[s + |p.elems|..])
    ensures Matches(c, Arr(a), p)
    ensures Written(c, Arr(a), p) ==
            WrittenFrom(c, a, p.elems, s, 0) + (RestNamed(p.pre, before) + RestNamed(p.post, after))
  {
    LeftmostWindow(c, a, p, s);
    assert Elements(c, Arr(a)) == Some(a);
  }

  lemma SecondWindow(c: Context, a: seq<Value>, ps: seq<Pattern>)
    requires a == [Int(1), Int(2), Int(3), Int(2)] && ps == [Lit(Int(2)), Capture(Wild, Some("x"))]
    ensures Window(c, a, ps, 1) && FirstWindow(c, a, ps, 0) == 1
    ensures WrittenFrom(c, a, ps, 1, 0) == map["x" := Int(3)]
  {
    assert !Window(c, a, ps, 0) by {
      assert !Matches(c, a[0 + 0], ps[0]);
    }
    assert Matches(c, a[1 + 0], ps[0]) && Matches(c, a[1 + 1], ps[1]);
    assert FirstWindow(c, a, ps, 1) == 1;
    assert WrittenFrom(c, a, ps, 1, 2) == map[];
    assert WrittenFrom(c, a, ps, 1, 1) == map["x" := Int(3)];
  }
}
