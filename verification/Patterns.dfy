/**
  * Pattern matching of `case`/`in`.
  *
  * `Matches` says declaratively when a value matches, and `Caught` what a match binds. The matcher writes
  * bindings as it goes, into a scratch table; `Written` is what it writes, on success and on failure.
  */
module Patterns {
  import opened Options

  datatype Value =
    | Nil
    | Bool(b: bool)
    | Int(n: int)
    | Str(s: string)
    | Sym(s: string)
    | Arr(elems: seq<Value>)
    | Hash(pairs: seq<(Value, Value)>)
    | Object(id: int)

  /** `*` with or without a name, or no splat at all. */
  datatype Rest = NoRest | Splat(name: Option<string>)

  datatype Pattern =
    | Wild
    | Lit(v: Value)
    | Test(id: int)
    | ArrPat(pre: Rest, elems: seq<Pattern>, post: Rest)
    | HashPat(pairs: seq<(string, Pattern)>, rest: Rest)
    | Capture(sub: Pattern, name: Option<string>)
    | Pin(variable: string)
    | Or(l: Pattern, r: Pattern)

  /**
    * What evaluation supplies: `deconstruct` and `deconstruct_keys` (`None` for a signal or a result of the
    * wrong kind), class, range and `===` tests, and the variables a pin looks up.
    */
  datatype Context = Context(
    deconstruct: Value -> Option<seq<Value>>,
    deconstructKeys: (Value, Value) -> Option<seq<(Value, Value)>>,
    test: (int, Value) -> bool,
    pinned: string -> Option<Value>)

  function Elements(c: Context, v: Value): Option<seq<Value>> {
    if v.Arr? then Some(v.elems) else c.deconstruct(v)
  }

  function Keys(ps: seq<(string, Pattern)>): seq<Value> {
    seq(|ps|, i requires 0 <= i < |ps| => Sym(ps[i].0))
  }

  function Entries(c: Context, v: Value, p: Pattern): Option<seq<(Value, Value)>>
    requires p.HashPat?
  {
    if v.Hash? then Some(v.pairs)
    else c.deconstructKeys(v, if p.rest.Splat? then Nil else Arr(Keys(p.pairs)))
  }

  /** `val_hash_get`: the first entry with that key. */
  function Lookup(h: seq<(Value, Value)>, key: Value): (r: Option<Value>)
    ensures r.None? <==> forall i :: 0 <= i < |h| ==> h[i].0 != key
    ensures r.Some? ==> (key, r.value) in h
  {
    if h == [] then None else if h[0].0 == key then Some(h[0].1) else Lookup(h[1..], key)
  }

  predicate Bare(p: Pattern) {
    p.Capture? && p.sub.Wild?
  }

  // ---------------------------------------------------------------------------------------------
  // When a value matches
  // ---------------------------------------------------------------------------------------------

  predicate Matches(c: Context, v: Value, p: Pattern)
    decreases p, 2
  {
    match p
    case Wild => true
    case Lit(u) => v == u
    case Test(id) => c.test(id, v)
    case Capture(sub, _) => Matches(c, v, sub)
    case Pin(variable) => c.pinned(variable) == Some(v)
    case Or(l, r) => Matches(c, v, l) || Matches(c, v, r)
    case ArrPat(_, _, _) => Elements(c, v).Some? && ArrayMatches(c, Elements(c, v).value, p)
    case HashPat(_, _) => Entries(c, v, p).Some? && HashMatches(c, Entries(c, v, p).value, p)
  }

  predicate ArrayMatches(c: Context, a: seq<Value>, p: Pattern)
    requires p.ArrPat?
    decreases p, 1
  {
    var n := |p.elems|;
    if p.pre.Splat? && p.post.Splat? then n > 0 && HasWindow(c, a, p.elems, 0)
    else if p.pre.Splat? then n <= |a| && Window(c, a, p.elems, |a| - n)
    else (if p.post.Splat? then n <= |a| else n == |a|) && Window(c, a, p.elems, 0)
  }

  /** Some window from `s` on matches. */
  predicate HasWindow(c: Context, a: seq<Value>, ps: seq<Pattern>, s: nat)
    decreases ps, 1, |a| - s
  {
    s + |ps| <= |a| && (Window(c, a, ps, s) || HasWindow(c, a, ps, s + 1))
  }

  predicate HashMatches(c: Context, h: seq<(Value, Value)>, p: Pattern)
    requires p.HashPat?
    decreases p, 1
  {
    forall i :: 0 <= i < |p.pairs| ==> PairMatches(c, h, p.pairs[i].0, p.pairs[i].1)
  }

  /** A missing key is fine for the shorthand `key:` alone, which then binds nothing. */
  predicate PairMatches(c: Context, h: seq<(Value, Value)>, key: string, p: Pattern)
    decreases p, 3
  {
    var found := Lookup(h, Sym(key));
    if found.None? then Bare(p) else Matches(c, found.value, p)
  }

  /** In Ruby every key that is named has to be there. */
  predicate RubyHashMatches(c: Context, h: seq<(Value, Value)>, p: Pattern)
    requires p.HashPat?
  {
    forall i :: 0 <= i < |p.pairs| ==>
      Lookup(h, Sym(p.pairs[i].0)).Some? && PairMatches(c, h, p.pairs[i].0, p.pairs[i].1)
  }

  /** The shorthand `key:` stands at position `i` for a key that the hash lacks. */
  predicate MissingShorthand(h: seq<(Value, Value)>, p: Pattern, i: nat)
    requires p.HashPat? && i < |p.pairs|
  {
    Bare(p.pairs[i].1) && Lookup(h, Sym(p.pairs[i].0)).None?
  }

  /** The two differ on a hash exactly when a shorthand key is missing and every other pair matches. */
  lemma ShorthandAgreesIff(c: Context, h: seq<(Value, Value)>, p: Pattern)
    requires p.HashPat?
    ensures HashMatches(c, h, p) != RubyHashMatches(c, h, p) <==>
              (exists i: nat :: i < |p.pairs| && MissingShorthand(h, p, i)) &&
              forall i: nat :: i < |p.pairs| && !MissingShorthand(h, p, i) ==>
                PairMatches(c, h, p.pairs[i].0, p.pairs[i].1)
  {
    forall i: nat | i < |p.pairs|
      ensures MissingShorthand(h, p, i) ==> PairMatches(c, h, p.pairs[i].0, p.pairs[i].1)
      ensures PairMatches(c, h, p.pairs[i].0, p.pairs[i].1) && !MissingShorthand(h, p, i) ==>
                Lookup(h, Sym(p.pairs[i].0)).Some?
    {
    }
    if HashMatches(c, h, p) && forall i: nat :: i < |p.pairs| ==> !MissingShorthand(h, p, i) {
      assert RubyHashMatches(c, h, p);
    }
  }

  /** `{b:}` matches the empty hash. */
  lemma MissingKeyMatches(c: Context)
    ensures
      var p := HashPat([("b", Capture(Wild, Some("b")))], NoRest);
      Matches(c, Hash([]), p) && !RubyHashMatches(c, [], p)
  {
    var h: seq<(Value, Value)> := [];
    assert Lookup(h, Sym("b")).None?;
    var p := HashPat([("b", Capture(Wild, Some("b")))], NoRest);
    assert p.pairs[0].0 == "b";
    assert !RubyHashMatches(c, h, p);
    assert HashMatches(c, h, p);
  }

  /** The patterns match the consecutive elements from `s` on. */
  predicate Window(c: Context, a: seq<Value>, ps: seq<Pattern>, s: nat)
    requires s + |ps| <= |a|
    decreases ps, 0
  {
    forall i :: 0 <= i < |ps| ==> Matches(c, a[s + i], ps[i])
  }

  lemma {:induction false} HasWindowIffSome(c: Context, a: seq<Value>, ps: seq<Pattern>, s: nat)
    ensures HasWindow(c, a, ps, s) <==> exists t :: s <= t <= |a| - |ps| && Window(c, a, ps, t)
    decreases |a| - s
  {
    if s + |ps| <= |a| {
      HasWindowIffSome(c, a, ps, s + 1);
      if HasWindow(c, a, ps, s) {
        if Window(c, a, ps, s) {
          assert s <= s <= |a| - |ps| && Window(c, a, ps, s);
        } else {
          assert HasWindow(c, a, ps, s + 1);
        }
      }
      if exists t :: s <= t <= |a| - |ps| && Window(c, a, ps, t) {
        var t :| s <= t <= |a| - |ps| && Window(c, a, ps, t);
        if t != s {
          assert exists u :: s + 1 <= u <= |a| - |ps| && Window(c, a, ps, u);
        }
      }
    }
  }

  /** The leftmost window from `from` on, or a position past the last one. */
  function FirstWindow(c: Context, a: seq<Value>, ps: seq<Pattern>, from: nat): (s: nat)
    requires |ps| <= |a|
    ensures HasWindow(c, a, ps, from) <==> s + |ps| <= |a|
    ensures s + |ps| <= |a| ==> s >= from && Window(c, a, ps, s)
    ensures forall t :: from <= t < s && t + |ps| <= |a| ==> !Window(c, a, ps, t)
    decreases ps, |a| + 1 - from
  {
    if from + |ps| > |a| || Window(c, a, ps, from) then from else FirstWindow(c, a, ps, from + 1)
  }

  // ---------------------------------------------------------------------------------------------
  // What a match binds
  // ---------------------------------------------------------------------------------------------

  type Bound = map<string, Value>

  function Named(name: Option<string>, v: Value): Bound {
    if name.Some? then map[name.value := v] else map[]
  }

  function RestNamed(r: Rest, v: Value): Bound {
    if r.Splat? then Named(r.name, v) else map[]
  }

  /** `val_hash_set`. */
  function HashSet(h: seq<(Value, Value)>, key: Value, v: Value): seq<(Value, Value)> {
    if h == [] then [(key, v)]
    else if h[0].0 == key then [(key, v)] + h[1..]
    else [h[0]] + HashSet(h[1..], key, v)
  }

  /** The entries of `h` whose key the pattern does not mention. */
  function Unmentioned(h: seq<(Value, Value)>, keys: seq<Value>): seq<(Value, Value)> {
    if h == [] then []
    else
      var rest, last := Unmentioned(h[..|h| - 1], keys), h[|h| - 1];
      if last.0 in keys then rest else HashSet(rest, last.0, last.1)
  }

  /** Where an array pattern finds its required elements: leftmost for a find pattern. */
  function Start(c: Context, a: seq<Value>, p: Pattern): nat
    requires p.ArrPat? && |p.elems| <= |a|
  {
    if p.pre.Splat? && p.post.Splat? then FirstWindow(c, a, p.elems, 0)
    else if p.pre.Splat? then |a| - |p.elems| else 0
  }

  function Rests(a: seq<Value>, p: Pattern, s: nat): Bound
    requires p.ArrPat? && s + |p.elems| <= |a|
  {
    RestNamed(p.pre, Arr(a[..s])) + RestNamed(p.post, Arr(a[s + |p.elems|..]))
  }

  lemma StartOfMatch(c: Context, a: seq<Value>, p: Pattern)
    requires p.ArrPat? && ArrayMatches(c, a, p)
    ensures |p.elems| <= |a| && Start(c, a, p) + |p.elems| <= |a| && Window(c, a, p.elems, Start(c, a, p))
  {
  }

  function Caught(c: Context, v: Value, p: Pattern): Bound
    requires Matches(c, v, p)
    decreases p, 2
  {
    match p
    case Capture(sub, name) => Caught(c, v, sub) + Named(name, v)
    case Or(l, r) => if Matches(c, v, l) then Caught(c, v, l) else Caught(c, v, r)
    case ArrPat(_, _, _) => CaughtInArray(c, Elements(c, v).value, p)
    case HashPat(_, _) => CaughtPairs(c, Entries(c, v, p).value, p, 0) + HashRest(Entries(c, v, p).value, p)
    case _ => map[]
  }

  function CaughtInArray(c: Context, a: seq<Value>, p: Pattern): Bound
    requires p.ArrPat? && ArrayMatches(c, a, p)
    decreases p, 1
  {
    StartOfMatch(c, a, p);
    CaughtFrom(c, a, p.elems, Start(c, a, p), 0) + Rests(a, p, Start(c, a, p))
  }

  function HashRest(h: seq<(Value, Value)>, p: Pattern): Bound
    requires p.HashPat?
  {
    RestNamed(p.rest, Hash(Unmentioned(h, Keys(p.pairs))))
  }

  function CaughtFrom(c: Context, a: seq<Value>, ps: seq<Pattern>, s: nat, i: nat): Bound
    requires s + |ps| <= |a| && Window(c, a, ps, s) && i <= |ps|
    decreases ps, |ps| - i
  {
    if i == |ps| then map[] else Caught(c, a[s + i], ps[i]) + CaughtFrom(c, a, ps, s, i + 1)
  }

  function CaughtPairs(c: Context, h: seq<(Value, Value)>, p: Pattern, i: nat): Bound
    requires p.HashPat? && HashMatches(c, h, p) && i <= |p.pairs|
    decreases p, 0, |p.pairs| - i
  {
    if i == |p.pairs| then map[]
    else
      assert PairMatches(c, h, p.pairs[i].0, p.pairs[i].1);
      var found := Lookup(h, Sym(p.pairs[i].0));
      (if found.None? then map[] else Caught(c, found.value, p.pairs[i].1)) + CaughtPairs(c, h, p, i + 1)
  }

  // ---------------------------------------------------------------------------------------------
  // What the matcher writes, whether or not the match succeeds
  // ---------------------------------------------------------------------------------------------

  function Written(c: Context, v: Value, p: Pattern): Bound
    decreases p, 2
  {
    match p
    case Capture(sub, name) => Written(c, v, sub) + if Matches(c, v, sub) then Named(name, v) else map[]
    case Or(l, r) => Written(c, v, l) + if Matches(c, v, l) then map[] else Written(c, v, r)
    case ArrPat(_, _, _) => if Elements(c, v).None? then map[] else WrittenInArray(c, Elements(c, v).value, p)
    case HashPat(_, _) => if Entries(c, v, p).None? then map[] else WrittenInHash(c, Entries(c, v, p).value, p)
    case _ => map[]
  }

  /** A find pattern writes only for the window it settles on; the other forms write as they go. */
  function WrittenInArray(c: Context, a: seq<Value>, p: Pattern): Bound
    requires p.ArrPat?
    decreases p, 1
  {
    if ArrayMatches(c, a, p) then
      StartOfMatch(c, a, p);
      WrittenFrom(c, a, p.elems, Start(c, a, p), 0) + Rests(a, p, Start(c, a, p))
    else if
      (p.pre.Splat? && p.post.Splat?) || |p.elems| > |a| || (p.pre.NoRest? && p.post.NoRest? && |p.elems| != |a|)
    then
      map[]
    else WrittenFrom(c, a, p.elems, Start(c, a, p), 0)
  }

  function WrittenInHash(c: Context, h: seq<(Value, Value)>, p: Pattern): Bound
    requires p.HashPat?
    decreases p, 1
  {
    WrittenPairs(c, h, p, 0) + if HashMatches(c, h, p) then HashRest(h, p) else map[]
  }

  /** Elements are tried in order, and the first that does not match is the last one tried. */
  function WrittenFrom(c: Context, a: seq<Value>, ps: seq<Pattern>, s: nat, i: nat): Bound
    requires s + |ps| <= |a| && i <= |ps|
    decreases ps, |ps| - i
  {
    if i == |ps| then map[]
    else Written(c, a[s + i], ps[i]) + if Matches(c, a[s + i], ps[i]) then WrittenFrom(c, a, ps, s, i + 1) else map[]
  }

  function WrittenPairs(c: Context, h: seq<(Value, Value)>, p: Pattern, i: nat): Bound
    requires p.HashPat? && i <= |p.pairs|
    decreases p, 0, |p.pairs| - i
  {
    if i == |p.pairs| then map[]
    else
      var found := Lookup(h, Sym(p.pairs[i].0));
      (if found.None? then map[] else Written(c, found.value, p.pairs[i].1)) +
      if PairMatches(c, h, p.pairs[i].0, p.pairs[i].1) then WrittenPairs(c, h, p, i + 1) else map[]
  }

  // ---------------------------------------------------------------------------------------------
  // The matcher
  // ---------------------------------------------------------------------------------------------

  lemma UnionAssociates(a: Bound, b: Bound, d: Bound)
    ensures a + b + d == a + (b + d)
  {
  }

  /** A scratch environment; `Define` is `env_define`. */
  class Scratch {
    var bound: Bound

    constructor ()
      ensures bound == map[]
    {
      bound := map[];
    }

    method Define(name: string, v: Value)
      modifies this
      ensures bound == old(bound)[name := v]
    {
      bound := bound[name := v];
    }

    method DefineNamed(name: Option<string>, v: Value)
      modifies this
      ensures bound == old(bound) + Named(name, v)
    {
      if name.Some? {
        Define(name.value, v);
      }
    }

    method DefineRest(r: Rest, v: Value)
      modifies this
      ensures bound == old(bound) + RestNamed(r, v)
    {
      if r.Splat? {
        DefineNamed(r.name, v);
      }
    }

    /** Copies the bindings of a trial that succeeded. */
    method Adopt(trial: Bound)
      modifies this
      ensures bound == old(bound) + trial
    {
      var left := trial.Keys;
      while left != {}
        invariant left <= trial.Keys
        invariant bound == old(bound) + (map n | n in trial && n !in left :: trial[n])
        decreases left
      {
        var n :| n in left;
        Define(n, trial[n]);
        left := left - {n};
      }
    }
  }

  method MatchPattern(c: Context, env: Scratch, v: Value, p: Pattern) returns (ok: bool)
    modifies env
    ensures ok == Matches(c, v, p)
    ensures env.bound == old(env.bound) + Written(c, v, p)
    decreases p, 2
  {
    match p
    case Wild => ok := true;
    case Lit(u) => ok := v == u;
    case Test(id) => ok := c.test(id, v);
    case Pin(variable) =>
      var pinned := c.pinned(variable);
      ok := pinned.Some? && pinned.value == v;
    case Capture(_, _) => ok := MatchCapture(c, env, v, p);
    case Or(_, _) => ok := MatchAlternative(c, env, v, p);
    case ArrPat(_, _, _) =>
      var elements := Elements(c, v);
      if elements.None? {
        return false;
      }
      ok := MatchArrayPattern(c, env, elements.value, p);
    case HashPat(_, _) =>
      var entries := Entries(c, v, p);
      if entries.None? {
        return false;
      }
      ok := MatchHashPattern(c, env, entries.value, p);
  }

  method MatchCapture(c: Context, env: Scratch, v: Value, p: Pattern) returns (ok: bool)
    requires p.Capture?
    modifies env
    ensures ok == Matches(c, v, p)
    ensures env.bound == old(env.bound) + Written(c, v, p)
    decreases p, 1
  {
    ok := MatchPattern(c, env, v, p.sub);
    if ok {
      UnionAssociates(old(env.bound), Written(c, v, p.sub), Named(p.name, v));
      env.DefineNamed(p.name, v);
    } else {
      UnionWithNothing(Written(c, v, p.sub));
    }
  }

  /** The right arm is tried on top of whatever a failed left arm has written. */
  method MatchAlternative(c: Context, env: Scratch, v: Value, p: Pattern) returns (ok: bool)
    requires p.Or?
    modifies env
    ensures ok == Matches(c, v, p)
    ensures env.bound == old(env.bound) + Written(c, v, p)
    decreases p, 1
  {
    ok := MatchPattern(c, env, v, p.l);
    if ok {
      UnionWithNothing(Written(c, v, p.l));
    } else {
      UnionAssociates(old(env.bound), Written(c, v, p.l), Written(c, v, p.r));
      ok := MatchPattern(c, env, v, p.r);
    }
  }

  /** The loop over the required elements, from position `s` of the array on. */
  method MatchElements(c: Context, env: Scratch, a: seq<Value>, ps: seq<Pattern>, s: nat) returns (ok: bool)
    requires s + |ps| <= |a|
    modifies env
    ensures ok == Window(c, a, ps, s)
    ensures env.bound == old(env.bound) + WrittenFrom(c, a, ps, s, 0)
    decreases ps, 1
  {
    for i := 0 to |ps|
      invariant forall j :: 0 <= j < i ==> Matches(c, a[s + j], ps[j])
      invariant old(env.bound) + WrittenFrom(c, a, ps, s, 0) == env.bound + WrittenFrom(c, a, ps, s, i)
    {
      ghost var before := env.bound;
      ok := MatchPattern(c, env, a[s + i], ps[i]);
      ghost var rest := if ok then WrittenFrom(c, a, ps, s, i + 1) else map[];
      UnionAssociates(before, Written(c, a[s + i], ps[i]), rest);
      if !ok {
        return;
      }
    }
    ok := true;
  }

  /** An array pattern without two splats, of a length that fits: one window decides. */
  lemma OneWindow(c: Context, a: seq<Value>, p: Pattern, s: nat)
    requires p.ArrPat? && !(p.pre.Splat? && p.post.Splat?) && |p.elems| <= |a|
    requires p.pre.NoRest? && p.post.NoRest? ==> |p.elems| == |a|
    requires s == if p.pre.Splat? then |a| - |p.elems| else 0
    ensures ArrayMatches(c, a, p) == Window(c, a, p.elems, s)
    ensures WrittenInArray(c, a, p) ==
            WrittenFrom(c, a, p.elems, s, 0) + if Window(c, a, p.elems, s) then Rests(a, p, s) else map[]
    ensures Rests(a, p, s) ==
              if p.pre.Splat? then RestNamed(p.pre, Arr(a[..s])) else RestNamed(p.post, Arr(a[|p.elems|..]))
  {
  }

  lemma NoWindow(c: Context, a: seq<Value>, p: Pattern)
    requires p.ArrPat?
    requires
      || |p.elems| > |a|
      || (p.pre.NoRest? && p.post.NoRest? && |p.elems| != |a|)
      || (p.pre.Splat? && p.post.Splat? && |p.elems| == 0)
      || (p.pre.Splat? && p.post.Splat? && !HasWindow(c, a, p.elems, 0))
    ensures !ArrayMatches(c, a, p) && WrittenInArray(c, a, p) == map[]
  {
  }

  lemma LeftmostWindow(c: Context, a: seq<Value>, p: Pattern, s: nat)
    requires p.ArrPat? && p.pre.Splat? && p.post.Splat? && 0 < |p.elems| && s + |p.elems| <= |a|
    requires Window(c, a, p.elems, s) && FirstWindow(c, a, p.elems, 0) == s
    ensures ArrayMatches(c, a, p) && Start(c, a, p) == s
    ensures WrittenInArray(c, a, p) == WrittenFrom(c, a, p.elems, s, 0) + Rests(a, p, s)
  {
  }

  lemma UnionWithNothing(m: Bound)
    ensures m + map[] == m
  {
  }

  method MatchArrayPattern(c: Context, env: Scratch, a: seq<Value>, p: Pattern) returns (ok: bool)
    requires p.ArrPat?
    modifies env
    ensures ok == ArrayMatches(c, a, p)
    ensures env.bound == old(env.bound) + WrittenInArray(c, a, p)
    decreases p, 1
  {
    var n := |p.elems|;
    ok := false;
    UnionWithNothing(env.bound);
    if p.pre.Splat? && p.post.Splat? {
      if n > 0 {
        ok := FindPattern(c, env, a, p);
      } else {
        NoWindow(c, a, p);
      }
    } else if (p.pre.NoRest? && p.post.NoRest? && n != |a|) || n > |a| {
      NoWindow(c, a, p);
    } else {
      var s := if p.pre.Splat? then |a| - n else 0;
      OneWindow(c, a, p, s);
      ok := MatchElements(c, env, a, p.elems, s);
      if ok {
        UnionAssociates(old(env.bound), WrittenFrom(c, a, p.elems, s, 0), Rests(a, p, s));
        if p.pre.Splat? {
          env.DefineRest(p.pre, Arr(a[..s]));
        } else {
          env.DefineRest(p.post, Arr(a[n..]));
        }
      } else {
        UnionWithNothing(WrittenFrom(c, a, p.elems, s, 0));
      }
    }
  }

  /** `[*, p1, .., pn, *]`: windows are tried from the left, each in a scratch environment of its own. */
  method SearchWindows(c: Context, a: seq<Value>, ps: seq<Pattern>) returns (ok: bool, start: nat, trial: Bound)
    ensures ok == HasWindow(c, a, ps, 0)
    ensures ok ==>
              start + |ps| <= |a| && start == FirstWindow(c, a, ps, 0) && Window(c, a, ps, start) &&
              trial == WrittenFrom(c, a, ps, start, 0)
    decreases ps, 3
  {
    start, trial := 0, map[];
    while start + |ps| <= |a|
      invariant HasWindow(c, a, ps, 0) == HasWindow(c, a, ps, start)
      invariant |ps| <= |a| ==> FirstWindow(c, a, ps, 0) == FirstWindow(c, a, ps, start)
      decreases |a| - start
    {
      ok, trial := TryWindow(c, a, ps, start);
      if ok {
        return;
      }
      start := start + 1;
    }
    ok := false;
  }

  method FindPattern(c: Context, env: Scratch, a: seq<Value>, p: Pattern) returns (ok: bool)
    requires p.ArrPat? && p.pre.Splat? && p.post.Splat? && |p.elems| > 0
    modifies env
    ensures ok == ArrayMatches(c, a, p)
    ensures env.bound == old(env.bound) + WrittenInArray(c, a, p)
    decreases p, 0
  {
    var start, trial;
    ok, start, trial := SearchWindows(c, a, p.elems);
    if ok {
      LeftmostWindow(c, a, p, start);
      env.Adopt(trial);
      env.DefineRest(p.pre, Arr(a[..start]));
      env.DefineRest(p.post, Arr(a[start + |p.elems|..]));
      WrittenThenRests(old(env.bound), trial, a, p, start);
    } else {
      NoWindow(c, a, p);
      UnionWithNothing(env.bound);
    }
  }

  method TryWindow(c: Context, a: seq<Value>, ps: seq<Pattern>, s: nat) returns (ok: bool, trial: Bound)
    requires s + |ps| <= |a|
    ensures ok == Window(c, a, ps, s) && trial == WrittenFrom(c, a, ps, s, 0)
    decreases ps, 2
  {
    var scratch := new Scratch();
    ok := MatchElements(c, scratch, a, ps, s);
    trial := scratch.bound;
  }

  lemma WrittenThenRests(before: Bound, written: Bound, a: seq<Value>, p: Pattern, s: nat)
    requires p.ArrPat? && s + |p.elems| <= |a|
    ensures before + written + RestNamed(p.pre, Arr(a[..s])) + RestNamed(p.post, Arr(a[s + |p.elems|..])) ==
            before + (written + Rests(a, p, s))
  {
  }

  method RestOfHash(h: seq<(Value, Value)>, pairs: seq<(string, Pattern)>) returns (rest: seq<(Value, Value)>)
    ensures rest == Unmentioned(h, Keys(pairs))
  {
    rest := [];
    for hi := 0 to |h|
      invariant rest == Unmentioned(h[..hi], Keys(pairs))
    {
      var matched := false;
      for l := 0 to |pairs|
        invariant !matched && h[hi].0 !in Keys(pairs)[..l]
      {
        if h[hi].0 == Sym(pairs[l].0) {
          matched := true;
          assert Keys(pairs)[l] == h[hi].0;
          break;
        }
        assert Keys(pairs)[..l + 1] == Keys(pairs)[..l] + [Sym(pairs[l].0)];
      }
      assert Keys(pairs)[..|pairs|] == Keys(pairs);
      assert h[..hi + 1][..hi] == h[..hi];
      if !matched {
        rest := HashSet(rest, h[hi].0, h[hi].1);
      }
    }
    assert h[..|h|] == h;
  }

  method MatchHashPattern(c: Context, env: Scratch, h: seq<(Value, Value)>, p: Pattern) returns (ok: bool)
    requires p.HashPat?
    modifies env
    ensures ok == HashMatches(c, h, p)
    ensures env.bound == old(env.bound) + WrittenInHash(c, h, p)
    decreases p, 1
  {
    ok := MatchPairs(c, env, h, p);
    if ok && p.rest.Splat? && p.rest.name.Some? {
      var rest := RestOfHash(h, p.pairs);
      UnionAssociates(old(env.bound), WrittenPairs(c, h, p, 0), HashRest(h, p));
      env.DefineRest(p.rest, Hash(rest));
    } else {
      UnionWithNothing(WrittenPairs(c, h, p, 0));
    }
  }

  /** What trying one pair writes. */
  function WrittenPair(c: Context, h: seq<(Value, Value)>, key: string, p: Pattern): Bound {
    var found := Lookup(h, Sym(key));
    if found.None? then map[] else Written(c, found.value, p)
  }

  lemma WrittenPairsStep(c: Context, h: seq<(Value, Value)>, p: Pattern, i: nat, before: Bound)
    requires p.HashPat? && i < |p.pairs|
    ensures before + WrittenPairs(c, h, p, i) ==
            before + WrittenPair(c, h, p.pairs[i].0, p.pairs[i].1) +
            if PairMatches(c, h, p.pairs[i].0, p.pairs[i].1) then WrittenPairs(c, h, p, i + 1) else map[]
  {
  }

  method MatchPair(c: Context, env: Scratch, h: seq<(Value, Value)>, key: string, p: Pattern) returns (ok: bool)
    modifies env
    ensures ok == PairMatches(c, h, key, p)
    ensures env.bound == old(env.bound) + WrittenPair(c, h, key, p)
    decreases p, 3
  {
    var found := Lookup(h, Sym(key));
    if found.None? {
      UnionWithNothing(env.bound);
      ok := Bare(p);
    } else {
      ok := MatchPattern(c, env, found.value, p);
    }
  }

  /** The loop over the key-pattern pairs. */
  method MatchPairs(c: Context, env: Scratch, h: seq<(Value, Value)>, p: Pattern) returns (ok: bool)
    requires p.HashPat?
    modifies env
    ensures ok == HashMatches(c, h, p)
    ensures env.bound == old(env.bound) + WrittenPairs(c, h, p, 0)
    decreases p, 0
  {
    for i := 0 to |p.pairs|
      invariant forall j :: 0 <= j < i ==> PairMatches(c, h, p.pairs[j].0, p.pairs[j].1)
      invariant old(env.bound) + WrittenPairs(c, h, p, 0) == env.bound + WrittenPairs(c, h, p, i)
    {
      WrittenPairsStep(c, h, p, i, env.bound);
      ok := MatchPair(c, env, h, p.pairs[i].0, p.pairs[i].1);
      if !ok {
        UnionWithNothing(env.bound);
        return;
      }
    }
    UnionWithNothing(env.bound);
    ok := true;
  }

  // ---------------------------------------------------------------------------------------------
  // What is written against what should be bound
  // ---------------------------------------------------------------------------------------------

  function NameSet(name: Option<string>): set<string> {
    if name.Some? then {name.value} else {}
  }

  function RestNames(r: Rest): set<string> {
    if r.Splat? then NameSet(r.name) else {}
  }

  function Names(p: Pattern): set<string> {
    match p
    case Capture(sub, name) => Names(sub) + NameSet(name)
    case Or(l, r) => Names(l) + Names(r)
    case ArrPat(pre, ps, post) =>
      (set i, n | 0 <= i < |ps| && n in Names(ps[i]) :: n) + RestNames(pre) + RestNames(post)
    case HashPat(pairs, rest) => (set i, n | 0 <= i < |pairs| && n in Names(pairs[i].1) :: n) + RestNames(rest)
    case _ => {}
  }

  /** Names that failed left arms of alternatives leave behind on the way to a match. */
  ghost function Spilled(c: Context, v: Value, p: Pattern): set<string>
    requires Matches(c, v, p)
    decreases p, 2
  {
    match p
    case Capture(sub, _) => Spilled(c, v, sub)
    case Or(l, r) => if Matches(c, v, l) then Spilled(c, v, l) else Written(c, v, l).Keys + Spilled(c, v, r)
    case ArrPat(_, _, _) => SpilledInArray(c, Elements(c, v).value, p)
    case HashPat(_, _) => SpilledPairs(c, Entries(c, v, p).value, p, 0)
    case _ => {}
  }

  ghost function SpilledInArray(c: Context, a: seq<Value>, p: Pattern): set<string>
    requires p.ArrPat? && ArrayMatches(c, a, p)
    decreases p, 1
  {
    StartOfMatch(c, a, p);
    SpilledFrom(c, a, p.elems, Start(c, a, p), 0)
  }

  ghost function SpilledFrom(c: Context, a: seq<Value>, ps: seq<Pattern>, s: nat, i: nat): set<string>
    requires s + |ps| <= |a| && Window(c, a, ps, s) && i <= |ps|
    decreases ps, |ps| - i
  {
    if i == |ps| then {} else Spilled(c, a[s + i], ps[i]) + SpilledFrom(c, a, ps, s, i + 1)
  }

  ghost function SpilledPairs(c: Context, h: seq<(Value, Value)>, p: Pattern, i: nat): set<string>
    requires p.HashPat? && HashMatches(c, h, p) && i <= |p.pairs|
    decreases p, 0, |p.pairs| - i
  {
    if i == |p.pairs| then {}
    else
      assert PairMatches(c, h, p.pairs[i].0, p.pairs[i].1);
      var found := Lookup(h, Sym(p.pairs[i].0));
      (if found.None? then {} else Spilled(c, found.value, p.pairs[i].1)) + SpilledPairs(c, h, p, i + 1)
  }

  ghost predicate Agree(written: Bound, caught: Bound, spilled: set<string>) {
    written.Keys == caught.Keys + spilled && (spilled == {} ==> written == caught)
  }

  lemma AgreeUnion(w: Bound, k: Bound, s: set<string>, w': Bound, k': Bound, s': set<string>)
    requires Agree(w, k, s) && Agree(w', k', s')
    ensures Agree(w + w', k + k', s + s')
  {
    assert (w + w').Keys == w.Keys + w'.Keys && (k + k').Keys == k.Keys + k'.Keys;
    assert s + s' == {} ==> s == {} && s' == {};
  }

  lemma AgreeSame(m: Bound)
    ensures Agree(m, m, {})
  {
  }

  lemma AgreeNamed(w: Bound, k: Bound, s: set<string>, named: Bound)
    requires Agree(w, k, s)
    ensures Agree(w + named, k + named, s)
  {
    AgreeSame(named);
    AgreeUnion(w, k, s, named, named, {});
    assert s + {} == s;
  }

  lemma AgreeOver(left: Bound, w: Bound, k: Bound, s: set<string>)
    requires Agree(w, k, s)
    ensures Agree(left + w, k, left.Keys + s)
  {
    assert (left + w).Keys == left.Keys + w.Keys;
    if left.Keys + s == {} {
      assert s == {} && left.Keys == {};
      assert left + w == w;
    }
  }

  /**
    * A successful match binds the names it should and, besides, exactly the spilled ones; without those,
    * the same values.
    */
  lemma {:induction false} WrittenIsCaught(c: Context, v: Value, p: Pattern)
    requires Matches(c, v, p)
    ensures Agree(Written(c, v, p), Caught(c, v, p), Spilled(c, v, p))
    decreases p, 2
  {
    match p
    case Capture(sub, name) =>
      WrittenIsCaught(c, v, sub);
      AgreeNamed(Written(c, v, sub), Caught(c, v, sub), Spilled(c, v, sub), Named(name, v));
    case Or(l, r) =>
      if Matches(c, v, l) {
        WrittenIsCaught(c, v, l);
        UnionWithNothing(Written(c, v, l));
      } else {
        WrittenIsCaught(c, v, r);
        AgreeOver(Written(c, v, l), Written(c, v, r), Caught(c, v, r), Spilled(c, v, r));
      }
    case ArrPat(_, _, _) => WrittenArrayIsCaught(c, Elements(c, v).value, p);
    case HashPat(_, _) => WrittenHashIsCaught(c, Entries(c, v, p).value, p);
    case _ =>
  }

  lemma WrittenArrayIsCaught(c: Context, a: seq<Value>, p: Pattern)
    requires p.ArrPat? && ArrayMatches(c, a, p)
    ensures Agree(WrittenInArray(c, a, p), CaughtInArray(c, a, p), SpilledInArray(c, a, p))
    decreases p, 1
  {
    StartOfMatch(c, a, p);
    var s, ps := Start(c, a, p), p.elems;
    WrittenFromIsCaught(c, a, ps, s, 0);
    AgreeSame(Rests(a, p, s));
    AgreeUnion(WrittenFrom(c, a, ps, s, 0), CaughtFrom(c, a, ps, s, 0), SpilledFrom(c, a, ps, s, 0),
               Rests(a, p, s), Rests(a, p, s), {});
  }

  lemma WrittenHashIsCaught(c: Context, h: seq<(Value, Value)>, p: Pattern)
    requires p.HashPat? && HashMatches(c, h, p)
    ensures Agree(WrittenInHash(c, h, p), CaughtPairs(c, h, p, 0) + HashRest(h, p), SpilledPairs(c, h, p, 0))
    decreases p, 1
  {
    WrittenPairsIsCaught(c, h, p, 0);
    AgreeSame(HashRest(h, p));
    AgreeUnion(WrittenPairs(c, h, p, 0), CaughtPairs(c, h, p, 0), SpilledPairs(c, h, p, 0),
               HashRest(h, p), HashRest(h, p), {});
  }

  lemma {:induction false} WrittenFromIsCaught(c: Context, a: seq<Value>, ps: seq<Pattern>, s: nat, i: nat)
    requires s + |ps| <= |a| && Window(c, a, ps, s) && i <= |ps|
    ensures Agree(WrittenFrom(c, a, ps, s, i), CaughtFrom(c, a, ps, s, i), SpilledFrom(c, a, ps, s, i))
    decreases ps, |ps| - i
  {
    if i == |ps| {
    } else {
      WrittenIsCaught(c, a[s + i], ps[i]);
      WrittenFromIsCaught(c, a, ps, s, i + 1);
      AgreeUnion(Written(c, a[s + i], ps[i]), Caught(c, a[s + i], ps[i]), Spilled(c, a[s + i], ps[i]),
                 WrittenFrom(c, a, ps, s, i + 1), CaughtFrom(c, a, ps, s, i + 1), SpilledFrom(c, a, ps, s, i + 1));
    }
  }

  lemma {:induction false} WrittenPairsIsCaught(c: Context, h: seq<(Value, Value)>, p: Pattern, i: nat)
    requires p.HashPat? && HashMatches(c, h, p) && i <= |p.pairs|
    ensures Agree(WrittenPairs(c, h, p, i), CaughtPairs(c, h, p, i), SpilledPairs(c, h, p, i))
    decreases p, 0, |p.pairs| - i
  {
    if i == |p.pairs| {
    } else {
      var q := p.pairs[i].1;
      assert PairMatches(c, h, p.pairs[i].0, q);
      var found := Lookup(h, Sym(p.pairs[i].0));
      WrittenPairsIsCaught(c, h, p, i + 1);
      if found.Some? {
        WrittenIsCaught(c, found.value, q);
        AgreeUnion(Written(c, found.value, q), Caught(c, found.value, q), Spilled(c, found.value, q),
                   WrittenPairs(c, h, p, i + 1), CaughtPairs(c, h, p, i + 1), SpilledPairs(c, h, p, i + 1));
      } else {
        AgreeSame(map[]);
        AgreeUnion(map[], map[], {},
                   WrittenPairs(c, h, p, i + 1), CaughtPairs(c, h, p, i + 1), SpilledPairs(c, h, p, i + 1));
      }
    }
  }

  /** No alternative captures anything in its left arm; Ruby itself allows no other alternatives. */
  predicate Quiet(p: Pattern) {
    match p
    case Capture(sub, _) => Quiet(sub)
    case Or(l, r) => Names(l) == {} && Quiet(l) && Quiet(r)
    case ArrPat(_, ps, _) => forall i :: 0 <= i < |ps| ==> Quiet(ps[i])
    case HashPat(pairs, _) => forall i :: 0 <= i < |pairs| ==> Quiet(pairs[i].1)
    case _ => true
  }

  lemma {:induction false} WrittenNames(c: Context, v: Value, p: Pattern)
    ensures Written(c, v, p).Keys <= Names(p)
    decreases p, 2
  {
    match p
    case Capture(sub, name) => WrittenNames(c, v, sub);
    case Or(l, r) =>
      WrittenNames(c, v, l);
      WrittenNames(c, v, r);
    case ArrPat(_, _, _) =>
      if Elements(c, v).Some? {
        WrittenArrayNames(c, Elements(c, v).value, p);
      }
    case HashPat(_, _) =>
      if Entries(c, v, p).Some? {
        WrittenPairsNames(c, Entries(c, v, p).value, p, 0);
      }
    case _ =>
  }

  lemma WrittenArrayNames(c: Context, a: seq<Value>, p: Pattern)
    requires p.ArrPat?
    ensures WrittenInArray(c, a, p).Keys <= Names(p)
    decreases p, 1
  {
    if ArrayMatches(c, a, p) {
      StartOfMatch(c, a, p);
    }
    if |p.elems| <= |a| && Start(c, a, p) + |p.elems| <= |a| {
      WrittenFromNames(c, a, p.elems, Start(c, a, p), 0);
    }
  }

  lemma {:induction false} WrittenFromNames(c: Context, a: seq<Value>, ps: seq<Pattern>, s: nat, i: nat)
    requires s + |ps| <= |a| && i <= |ps|
    ensures WrittenFrom(c, a, ps, s, i).Keys <= set j, n | 0 <= j < |ps| && n in Names(ps[j]) :: n
    decreases ps, |ps| - i
  {
    if i == |ps| {
    } else {
      WrittenNames(c, a[s + i], ps[i]);
      WrittenFromNames(c, a, ps, s, i + 1);
    }
  }

  lemma {:induction false} WrittenPairsNames(c: Context, h: seq<(Value, Value)>, p: Pattern, i: nat)
    requires p.HashPat? && i <= |p.pairs|
    ensures WrittenPairs(c, h, p, i).Keys <= set j, n | 0 <= j < |p.pairs| && n in Names(p.pairs[j].1) :: n
    decreases p, 0, |p.pairs| - i
  {
    if i == |p.pairs| {
    } else {
      var found := Lookup(h, Sym(p.pairs[i].0));
      if found.Some? {
        WrittenNames(c, found.value, p.pairs[i].1);
      }
      WrittenPairsNames(c, h, p, i + 1);
    }
  }

  lemma {:induction false} QuietSpillsNothing(c: Context, v: Value, p: Pattern)
    requires Matches(c, v, p) && Quiet(p)
    ensures Spilled(c, v, p) == {}
    decreases p, 2
  {
    match p
    case Capture(sub, _) => QuietSpillsNothing(c, v, sub);
    case Or(l, r) =>
      if Matches(c, v, l) {
        QuietSpillsNothing(c, v, l);
      } else {
        WrittenNames(c, v, l);
        QuietSpillsNothing(c, v, r);
      }
    case ArrPat(_, ps, _) =>
      var a := Elements(c, v).value;
      StartOfMatch(c, a, p);
      QuietFromSpillsNothing(c, a, ps, Start(c, a, p), 0);
    case HashPat(_, _) => QuietPairsSpillNothing(c, Entries(c, v, p).value, p, 0);
    case _ =>
  }

  lemma {:induction false} QuietFromSpillsNothing(c: Context, a: seq<Value>, ps: seq<Pattern>, s: nat, i: nat)
    requires s + |ps| <= |a| && Window(c, a, ps, s) && i <= |ps|
    requires forall j :: 0 <= j < |ps| ==> Quiet(ps[j])
    ensures SpilledFrom(c, a, ps, s, i) == {}
    decreases ps, |ps| - i
  {
    if i == |ps| {
    } else {
      QuietSpillsNothing(c, a[s + i], ps[i]);
      QuietFromSpillsNothing(c, a, ps, s, i + 1);
    }
  }

  lemma {:induction false} QuietPairsSpillNothing(c: Context, h: seq<(Value, Value)>, p: Pattern, i: nat)
    requires p.HashPat? && HashMatches(c, h, p) && Quiet(p) && i <= |p.pairs|
    ensures SpilledPairs(c, h, p, i) == {}
    decreases p, 0, |p.pairs| - i
  {
    if i == |p.pairs| {
    } else {
      assert PairMatches(c, h, p.pairs[i].0, p.pairs[i].1);
      var found := Lookup(h, Sym(p.pairs[i].0));
      if found.Some? {
        QuietSpillsNothing(c, found.value, p.pairs[i].1);
      }
      QuietPairsSpillNothing(c, h, p, i + 1);
    }
  }

  /** A match of a quiet pattern binds exactly what the match relation says. */
  lemma QuietBindsWhatItCatches(c: Context, v: Value, p: Pattern)
    requires Matches(c, v, p) && Quiet(p)
    ensures Written(c, v, p) == Caught(c, v, p)
  {
    WrittenIsCaught(c, v, p);
    QuietSpillsNothing(c, v, p);
  }

  // Ruby refuses a pattern that names a variable twice. For all others the excess of the matcher is exact.

  ghost function NamesFrom(ps: seq<Pattern>, i: nat): set<string> {
    set j, n | i <= j < |ps| && n in Names(ps[j]) :: n
  }

  ghost function PairNamesFrom(pairs: seq<(string, Pattern)>, i: nat): set<string> {
    set j, n | i <= j < |pairs| && n in Names(pairs[j].1) :: n
  }

  /** No name occurs twice. */
  ghost predicate Linear(p: Pattern) {
    match p
    case Capture(sub, name) => Linear(sub) && NameSet(name) !! Names(sub)
    case Or(l, r) => Linear(l) && Linear(r) && Names(l) !! Names(r)
    case ArrPat(pre, ps, post) =>
      && (forall i :: 0 <= i < |ps| ==> Linear(ps[i]) && Names(ps[i]) !! NamesFrom(ps, i + 1))
      && RestNames(pre) + RestNames(post) !! NamesFrom(ps, 0) && RestNames(pre) !! RestNames(post)
    case HashPat(pairs, rest) =>
      && (forall i :: 0 <= i < |pairs| ==> Linear(pairs[i].1) && Names(pairs[i].1) !! PairNamesFrom(pairs, i + 1))
      && RestNames(rest) !! PairNamesFrom(pairs, 0)
    case _ => true
  }

  /** Written is what should be bound, untouched, and besides it values for exactly the spilled names. */
  ghost predicate Exactly(written: Bound, caught: Bound, spilled: set<string>, names: set<string>) {
    && written.Keys == caught.Keys + spilled && caught.Keys !! spilled && written.Keys <= names
    && forall n :: n in caught ==> written[n] == caught[n]
  }

  lemma ExactlyUnion(w: Bound, k: Bound, s: set<string>, ns: set<string>,
                     w': Bound, k': Bound, s': set<string>, ns': set<string>)
    requires Exactly(w, k, s, ns) && Exactly(w', k', s', ns') && ns !! ns'
    ensures Exactly(w + w', k + k', s + s', ns + ns')
  {
    assert (w + w').Keys == w.Keys + w'.Keys && (k + k').Keys == k.Keys + k'.Keys;
  }

  lemma ExactlyNamed(m: Bound, names: set<string>)
    requires m.Keys <= names
    ensures Exactly(m, m, {}, names)
  {
  }

  lemma ExactlyWiden(w: Bound, k: Bound, s: set<string>, names: set<string>, more: set<string>)
    requires Exactly(w, k, s, names)
    ensures Exactly(w, k, s, names + more)
  {
  }

  /** What a failed arm wrote lies below what the other one writes. */
  lemma ExactlyOver(left: Bound, w: Bound, k: Bound, s: set<string>, names: set<string>, others: set<string>)
    requires Exactly(w, k, s, others) && left.Keys <= names && names !! others
    ensures Exactly(left + w, k, left.Keys + s, names + others)
  {
    assert (left + w).Keys == left.Keys + w.Keys;
  }

  lemma {:induction false} LinearExact(c: Context, v: Value, p: Pattern)
    requires Matches(c, v, p) && Linear(p)
    ensures Exactly(Written(c, v, p), Caught(c, v, p), Spilled(c, v, p), Names(p))
    decreases p, 2
  {
    match p
    case Capture(sub, name) =>
      LinearExact(c, v, sub);
      WithName(Written(c, v, sub), Caught(c, v, sub), Spilled(c, v, sub), Names(sub), name, v);
    case Or(l, r) => LinearOrExact(c, v, l, r);
    case ArrPat(_, _, _) => LinearArrayExact(c, Elements(c, v).value, p);
    case HashPat(_, _) => LinearHashExact(c, Entries(c, v, p).value, p);
    case _ =>
  }

  lemma WithName(w: Bound, k: Bound, s: set<string>, names: set<string>, name: Option<string>, v: Value)
    requires Exactly(w, k, s, names) && NameSet(name) !! names
    ensures Exactly(w + Named(name, v), k + Named(name, v), s, names + NameSet(name))
  {
    ExactlyNamed(Named(name, v), NameSet(name));
    ExactlyUnion(w, k, s, names, Named(name, v), Named(name, v), {}, NameSet(name));
    assert s + {} == s;
  }

  lemma LinearOrExact(c: Context, v: Value, l: Pattern, r: Pattern)
    requires Matches(c, v, Or(l, r)) && Linear(Or(l, r))
    ensures Exactly(Written(c, v, Or(l, r)), Caught(c, v, Or(l, r)), Spilled(c, v, Or(l, r)), Names(Or(l, r)))
    decreases Or(l, r), 1
  {
    if Matches(c, v, l) {
      LinearExact(c, v, l);
      UnionWithNothing(Written(c, v, l));
      ExactlyWiden(Written(c, v, l), Caught(c, v, l), Spilled(c, v, l), Names(l), Names(r));
    } else {
      LinearExact(c, v, r);
      WrittenNames(c, v, l);
      ExactlyOver(Written(c, v, l), Written(c, v, r), Caught(c, v, r), Spilled(c, v, r), Names(l), Names(r));
    }
  }

  lemma LinearArrayExact(c: Context, a: seq<Value>, p: Pattern)
    requires p.ArrPat? && ArrayMatches(c, a, p) && Linear(p)
    ensures Exactly(WrittenInArray(c, a, p), CaughtInArray(c, a, p), SpilledInArray(c, a, p), Names(p))
    decreases p, 1
  {
    StartOfMatch(c, a, p);
    var s, ps := Start(c, a, p), p.elems;
    LinearFromExact(c, a, ps, s, 0);
    ArrayNames(p);
    WithRests(WrittenFrom(c, a, ps, s, 0), CaughtFrom(c, a, ps, s, 0), SpilledFrom(c, a, ps, s, 0), a, p, s);
  }

  lemma ArrayNames(p: Pattern)
    requires p.ArrPat?
    ensures Names(p) == NamesFrom(p.elems, 0) + (RestNames(p.pre) + RestNames(p.post))
  {
  }

  lemma WithRests(w: Bound, k: Bound, spilled: set<string>, a: seq<Value>, p: Pattern, s: nat)
    requires p.ArrPat? && s + |p.elems| <= |a| && Exactly(w, k, spilled, NamesFrom(p.elems, 0))
    requires RestNames(p.pre) + RestNames(p.post) !! NamesFrom(p.elems, 0)
    ensures Exactly(w + Rests(a, p, s), k + Rests(a, p, s), spilled,
                    NamesFrom(p.elems, 0) + (RestNames(p.pre) + RestNames(p.post)))
  {
    var rests := RestNames(p.pre) + RestNames(p.post);
    ExactlyNamed(Rests(a, p, s), rests);
    ExactlyUnion(w, k, spilled, NamesFrom(p.elems, 0), Rests(a, p, s), Rests(a, p, s), {}, rests);
    assert spilled + {} == spilled;
  }

  lemma LinearHashExact(c: Context, h: seq<(Value, Value)>, p: Pattern)
    requires p.HashPat? && HashMatches(c, h, p) && Linear(p)
    ensures Exactly(WrittenInHash(c, h, p), CaughtPairs(c, h, p, 0) + HashRest(h, p), SpilledPairs(c, h, p, 0),
                    Names(p))
    decreases p, 1
  {
    LinearPairsExact(c, h, p, 0);
    ExactlyNamed(HashRest(h, p), RestNames(p.rest));
    ExactlyUnion(WrittenPairs(c, h, p, 0), CaughtPairs(c, h, p, 0), SpilledPairs(c, h, p, 0), PairNamesFrom(p.pairs, 0),
                 HashRest(h, p), HashRest(h, p), {}, RestNames(p.rest));
    assert Names(p) == PairNamesFrom(p.pairs, 0) + RestNames(p.rest);
  }

  lemma {:induction false} LinearFromExact(c: Context, a: seq<Value>, ps: seq<Pattern>, s: nat, i: nat)
    requires s + |ps| <= |a| && Window(c, a, ps, s) && i <= |ps|
    requires forall j :: 0 <= j < |ps| ==> Linear(ps[j]) && Names(ps[j]) !! NamesFrom(ps, j + 1)
    ensures Exactly(WrittenFrom(c, a, ps, s, i), CaughtFrom(c, a, ps, s, i), SpilledFrom(c, a, ps, s, i),
                    NamesFrom(ps, i))
    decreases ps, |ps| - i
  {
    if i == |ps| {
    } else {
      LinearExact(c, a[s + i], ps[i]);
      LinearFromExact(c, a, ps, s, i + 1);
      ExactlyUnion(Written(c, a[s + i], ps[i]), Caught(c, a[s + i], ps[i]), Spilled(c, a[s + i], ps[i]), Names(ps[i]),
                   WrittenFrom(c, a, ps, s, i + 1), CaughtFrom(c, a, ps, s, i + 1), SpilledFrom(c, a, ps, s, i + 1),
                   NamesFrom(ps, i + 1));
      assert NamesFrom(ps, i) == Names(ps[i]) + NamesFrom(ps, i + 1);
    }
  }

  lemma {:induction false} LinearPairsExact(c: Context, h: seq<(Value, Value)>, p: Pattern, i: nat)
    requires p.HashPat? && HashMatches(c, h, p) && Linear(p) && i <= |p.pairs|
    ensures Exactly(WrittenPairs(c, h, p, i), CaughtPairs(c, h, p, i), SpilledPairs(c, h, p, i),
                    PairNamesFrom(p.pairs, i))
    decreases p, 0, |p.pairs| - i
  {
    if i == |p.pairs| {
    } else {
      var q := p.pairs[i].1;
      assert PairMatches(c, h, p.pairs[i].0, q);
      var found := Lookup(h, Sym(p.pairs[i].0));
      LinearPairsExact(c, h, p, i + 1);
      assert PairNamesFrom(p.pairs, i) == Names(q) + PairNamesFrom(p.pairs, i + 1);
      if found.Some? {
        LinearExact(c, found.value, q);
        ExactlyUnion(Written(c, found.value, q), Caught(c, found.value, q), Spilled(c, found.value, q), Names(q),
                     WrittenPairs(c, h, p, i + 1), CaughtPairs(c, h, p, i + 1), SpilledPairs(c, h, p, i + 1),
                     PairNamesFrom(p.pairs, i + 1));
      } else {
        ExactlyNamed(map[], Names(q));
        ExactlyUnion(map[], map[], {}, Names(q),
                     WrittenPairs(c, h, p, i + 1), CaughtPairs(c, h, p, i + 1), SpilledPairs(c, h, p, i + 1),
                     PairNamesFrom(p.pairs, i + 1));
      }
    }
  }

  /**
    * A match of a pattern without repeated names binds every name it should to the value it should, and
    * binds exactly what the relation says if and only if no failed arm has written anything.
    */
  lemma LinearBindsExactlyIff(c: Context, v: Value, p: Pattern)
    requires Matches(c, v, p) && Linear(p)
    ensures Includes(Written(c, v, p), Caught(c, v, p))
    ensures Written(c, v, p) == Caught(c, v, p) <==> Spilled(c, v, p) == {}
  {
    LinearExact(c, v, p);
    ExactlyMeans(Written(c, v, p), Caught(c, v, p), Spilled(c, v, p), Names(p));
  }

  ghost predicate Includes(written: Bound, caught: Bound) {
    forall n :: n in caught ==> n in written && written[n] == caught[n]
  }

  lemma ExactlyMeans(w: Bound, k: Bound, s: set<string>, names: set<string>)
    requires Exactly(w, k, s, names)
    ensures Includes(w, k) && (w == k <==> s == {})
  {
    if w == k {
      assert w.Keys == k.Keys;
    }
  }

  /** `[x, 1] | y` on `[7, 2]` matches by its right arm and still binds `x`. */
  lemma FailedArmLeavesBinding(c: Context)
    ensures
      var one := Capture(Wild, Some("x"));
      var p := Or(ArrPat(NoRest, [one, Lit(Int(1))], NoRest), Capture(Wild, Some("y")));
      var v := Arr([Int(7), Int(2)]);
      Matches(c, v, p) && Caught(c, v, p) == map["y" := v] && Written(c, v, p) == map["x" := Int(7), "y" := v]
  {
    var one, lit := Capture(Wild, Some("x")), Lit(Int(1));
    var l := ArrPat(NoRest, [one, lit], NoRest);
    var a := [Int(7), Int(2)];
    assert !Matches(c, a[1], lit) && Matches(c, a[0], one);
    assert !Window(c, a, l.elems, 0) by {
      assert !Matches(c, a[0 + 1], l.elems[1]);
    }
    assert WrittenFrom(c, a, l.elems, 0, 1) == map[];
    assert WrittenFrom(c, a, l.elems, 0, 0) == map["x" := Int(7)];
    assert WrittenInArray(c, a, l) == map["x" := Int(7)];
  }

  // ---------------------------------------------------------------------------------------------
  // case .. in
  // ---------------------------------------------------------------------------------------------

  /** A guard sees the enclosing variables and the captures; `None` is a guard that raised. */
  datatype Clause = Clause(pattern: Pattern, guard: Option<Bound -> Option<bool>>)

  datatype CaseResult = Ran(clause: nat, captures: Bound) | RanElse | NoMatchingPattern

  predicate Takes(c: Context, outer: Bound, v: Value, clause: Clause) {
    Matches(c, v, clause.pattern) &&
    (clause.guard.None? || clause.guard.value(outer + Written(c, v, clause.pattern)) == Some(true))
  }

  /** The first clause whose pattern and guard hold runs; only its captures reach the enclosing scope. */
  method CaseIn(c: Context, env: Scratch, subject: Value, clauses: seq<Clause>, hasElse: bool) returns (r: CaseResult)
    modifies env
    ensures
      match r
      case Ran(i, captures) =>
        i < |clauses| && Takes(c, old(env.bound), subject, clauses[i]) &&
        (forall j :: 0 <= j < i ==> !Takes(c, old(env.bound), subject, clauses[j])) &&
        captures == Written(c, subject, clauses[i].pattern) && env.bound == old(env.bound) + captures
      case _ =>
        r.RanElse? == hasElse && env.bound == old(env.bound) &&
        forall j :: 0 <= j < |clauses| ==> !Takes(c, old(env.bound), subject, clauses[j])
  {
    for i := 0 to |clauses|
      invariant env.bound == old(env.bound)
      invariant forall j :: 0 <= j < i ==> !Takes(c, old(env.bound), subject, clauses[j])
    {
      var binding := new Scratch();
      var matched := MatchPattern(c, binding, subject, clauses[i].pattern);
      assert binding.bound == Written(c, subject, clauses[i].pattern);
      if matched {
        if clauses[i].guard.Some? {
          var g := clauses[i].guard.value(env.bound + binding.bound);
          if g != Some(true) {
            continue;
          }
        }
        env.Adopt(binding.bound);
        return Ran(i, binding.bound);
      }
    }
    return if hasElse then RanElse else NoMatchingPattern;
  }
}
