/**
  * `Enumerator::Lazy`: a list of operations that one pass over the source interprets.
  *
  * `Collect` is the one-pass interpreter with its counters, its flags and its early exits. `Eager`
  * is the meaning a reader of a pipeline has in mind: apply the operations one after another, each
  * to a whole sequence. The module proves for which pipelines the two agree.
  */
module LazyPipeline {
  import opened Options
  import opened Sequences

  /** One entry of `@ops`; `Other` is an entry the interpreter's `case` has no branch for. */
  datatype Op<!T> =
    | Select(p: T -> bool)
    | Reject(p: T -> bool)
    | Map(f: T -> T)
    | FlatMap(g: T -> seq<T>)
    | TakeWhile(p: T -> bool)
    | Drop(n: int)
    | DropWhile(p: T -> bool)
    | Take(n: int)
    | Other

  // ---------------------------------------------------------------------------------------------
  // Eager meaning
  // ---------------------------------------------------------------------------------------------

  function Filter<T>(s: seq<T>, p: T -> bool): (r: seq<T>)
    ensures |r| <= |s|
  {
    if s == [] then [] else (if p(s[0]) then [s[0]] else []) + Filter(s[1..], p)
  }

  function Not<T>(p: T -> bool): T -> bool {
    x => !p(x)
  }

  function MapAll<T>(s: seq<T>, f: T -> T): (r: seq<T>)
    ensures |r| == |s|
  {
    if s == [] then [] else [f(s[0])] + MapAll(s[1..], f)
  }

  function FlatMapAll<T>(s: seq<T>, g: T -> seq<T>): seq<T> {
    if s == [] then [] else g(s[0]) + FlatMapAll(s[1..], g)
  }

  function Leading<T>(s: seq<T>, p: T -> bool): (n: nat)
    ensures n <= |s|
  {
    if s == [] || !p(s[0]) then 0 else 1 + Leading(s[1..], p)
  }

  function Clamp(n: int, m: nat): nat {
    if n <= 0 then 0 else if n < m then n else m
  }

  function Prefix<T>(s: seq<T>, n: int): seq<T> {
    s[..Clamp(n, |s|)]
  }

  function Apply<T>(op: Op<T>, s: seq<T>): (r: seq<T>)
    ensures |s| == 0 ==> |r| == 0
    ensures |s| <= 1 && !op.FlatMap? ==> |r| <= 1
  {
    match op
    case Select(p) => Filter(s, p)
    case Reject(p) => Filter(s, Not(p))
    case Map(f) => MapAll(s, f)
    case FlatMap(g) => FlatMapAll(s, g)
    case TakeWhile(p) => s[..Leading(s, p)]
    case Drop(n) => s[Clamp(n, |s|)..]
    case DropWhile(p) => s[Leading(s, p)..]
    case Take(n) => Prefix(s, n)
    case Other => s
  }

  function Eager<T>(ops: seq<Op<T>>, s: seq<T>): seq<T> {
    if ops == [] then s else Eager(ops[1..], Apply(ops[0], s))
  }

  // ---------------------------------------------------------------------------------------------
  // What each operation makes of a sequence
  // ---------------------------------------------------------------------------------------------

  lemma FilterOne<T>(x: T, p: T -> bool)
    ensures Filter([x], p) == if p(x) then [x] else []
  {
    assert [x][1..] == [];
  }

  lemma {:induction false} FilterExact<T>(s: seq<T>, p: T -> bool) returns (idx: seq<nat>)
    ensures Positions(idx, s, p) && Selects(Filter(s, p), idx, s)
    decreases |s|
  {
    if s == [] {
      idx := [];
    } else {
      var init, x := s[..|s| - 1], s[|s| - 1];
      assert s == init + [x];
      idx := FilterExact(init, p);
      FilterSplit(init, [x], p);
      FilterOne(x, p);
      PositionsSnoc(idx, init, x, p);
      SelectsSnoc(Filter(init, p), idx, init, x);
      idx := if p(x) then idx + [|init|] else idx;
    }
  }

  lemma {:induction false} MapExact<T>(s: seq<T>, f: T -> T)
    ensures forall i :: 0 <= i < |s| ==> MapAll(s, f)[i] == f(s[i])
  {
    if s == [] {
    } else {
      MapExact(s[1..], f);
    }
  }

  lemma FlatMapExact<T>(c: seq<T>, x: T, r: seq<T>, g: T -> seq<T>)
    ensures FlatMapAll(c + [x] + r, g) == FlatMapAll(c, g) + g(x) + FlatMapAll(r, g)
  {
    FlatMapSplit(c + [x], r, g);
    FlatMapSplit(c, [x], g);
    assert FlatMapAll([x], g) == g(x) + FlatMapAll([x][1..], g);
  }

  lemma {:induction false} LeadingExact<T>(s: seq<T>, p: T -> bool)
    ensures forall i :: 0 <= i < Leading(s, p) ==> p(s[i])
    ensures Leading(s, p) < |s| ==> !p(s[Leading(s, p)])
  {
    if s == [] || !p(s[0]) {
    } else {
      LeadingExact(s[1..], p);
    }
  }

  // ---------------------------------------------------------------------------------------------
  // The one-pass interpreter as a state machine
  // ---------------------------------------------------------------------------------------------

  /** Inside the pass a `take` does nothing: it only sets the limit on the final output. */
  function Strip<T>(op: Op<T>): Op<T> {
    if op.Take? then Other else op
  }

  function StripAll<T>(ops: seq<Op<T>>): (r: seq<Op<T>>)
    ensures |r| == |ops|
  {
    if ops == [] then [] else [Strip(ops[0])] + StripAll(ops[1..])
  }

  /** What is left of an operation after it has consumed the values `c`. */
  function After<T>(op: Op<T>, c: seq<T>): (left: Op<T>)
    ensures |c| == 0 ==> left == op
    ensures left.FlatMap? == op.FlatMap? && left.TakeWhile? == op.TakeWhile? && left.Take? == op.Take?
  {
    match op
    case Drop(n) => Drop(n - Clamp(n, |c|))
    case DropWhile(p) => if Leading(c, p) == |c| then op else Other
    case _ => op
  }

  predicate Stops<T>(op: Op<T>, c: seq<T>) {
    op.TakeWhile? && Leading(c, op.p) < |c|
  }

  datatype Chunk<!T> = Chunk(ops: seq<Op<T>>, out: seq<T>, stop: bool)

  /** One trip of a batch of values through the list. A stopping `take_while` ends the trip at once. */
  function Pass<T>(ops: seq<Op<T>>, vals: seq<T>): (c: Chunk<T>)
    ensures |c.ops| == |ops|
  {
    if ops == [] then Chunk([], vals, false)
    else
      var out := Apply(Strip(ops[0]), vals);
      if Stops(ops[0], vals) then Chunk(ops, out, true)
      else
        var r := Pass(ops[1..], out);
        Chunk([After(ops[0], vals)] + r.ops, r.out, r.stop)
  }

  /** Later `take`s overwrite earlier ones. */
  function LastTake<T>(ops: seq<Op<T>>): Option<int> {
    if ops == [] then None
    else if LastTake(ops[1..]).Some? then LastTake(ops[1..])
    else if ops[0].Take? then Some(ops[0].n) else None
  }

  function Tighter(a: Option<int>, b: Option<int>): Option<int> {
    if a.None? then b else if b.None? then a else if a.value <= b.value then a else b
  }

  /** The inner `each` pushes a value before it looks at the limit. */
  function Push<T>(acc: seq<T>, out: seq<T>, limit: Option<int>): seq<T> {
    if limit.None? then acc + out
    else acc + Prefix(out, if limit.value - |acc| < 1 then 1 else limit.value - |acc|)
  }

  predicate Full<T>(acc: seq<T>, limit: Option<int>) {
    limit.Some? && |acc| >= limit.value
  }

  function Run<T>(ops: seq<Op<T>>, src: seq<T>, limit: Option<int>, acc: seq<T>): seq<T>
    decreases |src|
  {
    if src == [] then acc
    else
      var c := Pass(ops, [src[0]]);
      var acc' := Push(acc, c.out, limit);
      if c.stop || Full(acc', limit) then acc' else Run(c.ops, src[1..], limit, acc')
  }

  function Fused<T>(ops: seq<Op<T>>, src: seq<T>, cap: Option<int>): seq<T> {
    Run(ops, src, Tighter(cap, LastTake(ops)), [])
  }

  // ---------------------------------------------------------------------------------------------
  // One operation: consuming a batch, then the rest
  // ---------------------------------------------------------------------------------------------

  lemma {:induction false} FilterSplit<T>(c: seq<T>, r: seq<T>, p: T -> bool)
    ensures Filter(c + r, p) == Filter(c, p) + Filter(r, p)
  {
    if c == [] {
      assert c + r == r;
    } else {
      var head := if p(c[0]) then [c[0]] else [];
      assert (c + r)[1..] == c[1..] + r;
      FilterSplit(c[1..], r, p);
      assert head + (Filter(c[1..], p) + Filter(r, p)) == Filter(c, p) + Filter(r, p);
    }
  }

  lemma {:induction false} MapSplit<T>(c: seq<T>, r: seq<T>, f: T -> T)
    ensures MapAll(c + r, f) == MapAll(c, f) + MapAll(r, f)
  {
    if c == [] {
      assert c + r == r;
    } else {
      assert (c + r)[1..] == c[1..] + r;
      MapSplit(c[1..], r, f);
    }
  }

  lemma {:induction false} FlatMapSplit<T>(c: seq<T>, r: seq<T>, g: T -> seq<T>)
    ensures FlatMapAll(c + r, g) == FlatMapAll(c, g) + FlatMapAll(r, g)
  {
    if c == [] {
      assert c + r == r;
    } else {
      assert (c + r)[1..] == c[1..] + r;
      FlatMapSplit(c[1..], r, g);
    }
  }

  lemma {:induction false} LeadingSplit<T>(c: seq<T>, r: seq<T>, p: T -> bool)
    ensures Leading(c + r, p) == if Leading(c, p) < |c| then Leading(c, p) else |c| + Leading(r, p)
  {
    if c == [] {
      assert c + r == r;
    } else {
      assert (c + r)[1..] == c[1..] + r;
      LeadingSplit(c[1..], r, p);
    }
  }

  lemma CutSplit<T>(c: seq<T>, r: seq<T>, m: nat)
    ensures m <= |c| ==> (c + r)[..m] == c[..m] && (c + r)[m..] == c[m..] + r
    ensures |c| <= m <= |c| + |r| ==> (c + r)[..m] == c + r[..m - |c|] && (c + r)[m..] == r[m - |c|..]
  {
  }

  lemma SplitTakeWhile<T>(op: Op<T>, c: seq<T>, r: seq<T>)
    requires op.TakeWhile?
    ensures Apply(op, c + r) == if Stops(op, c) then Apply(op, c) else Apply(op, c) + Apply(After(op, c), r)
  {
    LeadingSplit(c, r, op.p);
    CutSplit(c, r, Leading(c + r, op.p));
  }

  lemma SplitDropWhile<T>(op: Op<T>, c: seq<T>, r: seq<T>)
    requires op.DropWhile?
    ensures Apply(op, c + r) == Apply(op, c) + Apply(After(op, c), r)
  {
    LeadingSplit(c, r, op.p);
    CutSplit(c, r, Leading(c + r, op.p));
  }

  lemma SplitDrop<T>(op: Op<T>, c: seq<T>, r: seq<T>)
    requires op.Drop?
    ensures Apply(op, c + r) == Apply(op, c) + Apply(After(op, c), r)
  {
    CutSplit(c, r, Clamp(op.n, |c + r|));
  }

  lemma SplitPure<T>(op: Op<T>, c: seq<T>, r: seq<T>)
    requires op.Select? || op.Reject? || op.Map? || op.FlatMap?
    ensures Apply(op, c + r) == Apply(op, c) + Apply(op, r)
  {
    match op
    case Select(p) => FilterSplit(c, r, p);
    case Reject(p) => FilterSplit(c, r, Not(p));
    case Map(f) => MapSplit(c, r, f);
    case FlatMap(g) => FlatMapSplit(c, r, g);
  }

  /** The batch `c` followed by `r`, against `c` first and then `r` through what is left of the operation. */
  lemma ApplySplit<T>(op: Op<T>, c: seq<T>, r: seq<T>)
    requires !op.Take?
    ensures Apply(op, c + r) == if Stops(op, c) then Apply(op, c) else Apply(op, c) + Apply(After(op, c), r)
  {
    if op.TakeWhile? {
      SplitTakeWhile(op, c, r);
    } else if op.DropWhile? {
      SplitDropWhile(op, c, r);
    } else if op.Drop? {
      SplitDrop(op, c, r);
    } else if !op.Other? {
      SplitPure(op, c, r);
    }
  }

  lemma {:induction false} EagerNone<T>(ops: seq<Op<T>>, none: seq<T>)
    requires |none| == 0
    ensures |Eager(ops, none)| == 0
  {
    if ops == [] {
    } else {
      EagerNone(ops[1..], Apply(ops[0], none));
    }
  }

  lemma EagerEmpty<T>(ops: seq<Op<T>>)
    ensures Eager(ops, []) == []
  {
    EagerNone(ops, []);
  }

  lemma {:induction false} PassNone<T>(ops: seq<Op<T>>, none: seq<T>)
    requires |none| == 0
    ensures Pass(ops, none).ops == ops && |Pass(ops, none).out| == 0 && !Pass(ops, none).stop
  {
    if ops == [] {
    } else {
      PassNone(ops[1..], Apply(Strip(ops[0]), none));
    }
  }

  lemma PassEmpty<T>(ops: seq<Op<T>>)
    ensures Pass(ops, []) == Chunk(ops, [], false)
  {
    PassNone(ops, []);
  }

  // ---------------------------------------------------------------------------------------------
  // Fused equals eager, up to the limit
  // ---------------------------------------------------------------------------------------------

  predicate Inert<T>(op: Op<T>) {
    op.Take? || op.Other? || (op.Drop? && op.n <= 0)
  }

  predicate AllInert<T>(ops: seq<Op<T>>) {
    forall i :: 0 <= i < |ops| ==> Inert(ops[i])
  }

  /**
    * No `take_while` both sees batches of several values (`many`) and is followed by an operation that
    * still has work to do, unless its block never answers false.
    */
  ghost predicate Safe<T(!new)>(ops: seq<Op<T>>, many: bool) {
    ops == [] ||
    (match ops[0]
     case FlatMap(_) => Safe(ops[1..], true)
     case TakeWhile(p) => (many && !AllInert(ops[1..]) ==> forall x :: p(x)) && Safe(ops[1..], many)
     case _ => Safe(ops[1..], many))
  }

  lemma {:induction false} InertEager<T>(ops: seq<Op<T>>, s: seq<T>)
    requires AllInert(ops)
    ensures Eager(StripAll(ops), s) == s
  {
    if ops == [] {
    } else {
      assert AllInert(ops[1..]);
      InertEager(ops[1..], s);
    }
  }

  lemma {:induction false} PassKeepsInert<T>(ops: seq<Op<T>>, vals: seq<T>)
    requires AllInert(ops)
    ensures AllInert(Pass(ops, vals).ops)
  {
    if ops != [] && !Stops(ops[0], vals) {
      assert AllInert(ops[1..]);
      PassKeepsInert(ops[1..], Apply(Strip(ops[0]), vals));
    }
  }

  lemma {:induction false} PassKeepsSafe<T(!new)>(ops: seq<Op<T>>, vals: seq<T>, many: bool)
    requires Safe(ops, many)
    ensures Safe(Pass(ops, vals).ops, many)
  {
    if ops != [] && !Stops(ops[0], vals) {
      var out := Apply(Strip(ops[0]), vals);
      PassKeepsSafe(ops[1..], out, many || ops[0].FlatMap?);
      if AllInert(ops[1..]) {
        PassKeepsInert(ops[1..], out);
      }
      assert Pass(ops, vals).ops[1..] == Pass(ops[1..], out).ops;
    }
  }

  lemma {:induction false} LeadingAll<T(!new)>(s: seq<T>, p: T -> bool)
    requires forall x :: p(x)
    ensures Leading(s, p) == |s|
  {
    if s == [] {
    } else {
      LeadingAll(s[1..], p);
    }
  }

  /** What the rest of the source still produces once a batch has gone through. */
  function Remainder<T>(p: Chunk<T>, r: seq<T>): seq<T> {
    if p.stop then [] else Eager(StripAll(p.ops), r)
  }

  /** One batch through the list, and the rest of the source through what the batch left of the list. */
  lemma {:induction false} PassEager<T(!new)>(ops: seq<Op<T>>, c: seq<T>, r: seq<T>, many: bool)
    requires Safe(ops, many) && (many || |c| <= 1)
    ensures Eager(StripAll(ops), c + r) == Pass(ops, c).out + Remainder(Pass(ops, c), r)
  {
    if ops == [] {
    } else {
      var op := Strip(ops[0]);
      var out := Apply(op, c);
      ApplySplit(op, c, r);
      assert StripAll(ops)[0] == op && StripAll(ops)[1..] == StripAll(ops[1..]);
      if Stops(op, c) {
        if many {
          if !AllInert(ops[1..]) {
            LeadingAll(c, op.p);
            assert false;
          }
          InertEager(ops[1..], out);
        } else {
          assert out == [];
          EagerEmpty(StripAll(ops[1..]));
        }
      } else {
        var rest := Apply(After(op, c), r);
        var p := Pass(ops[1..], out);
        PassEager(ops[1..], out, rest, many || op.FlatMap?);
        var ops' := [After(ops[0], c)] + p.ops;
        assert Pass(ops, c).ops == ops';
        assert ops'[1..] == p.ops;
        assert StripAll(ops')[0] == After(op, c) && StripAll(ops')[1..] == StripAll(p.ops);
      }
    }
  }

  /** What a whole run returns: the eager result, cut at the limit. */
  ghost function Clip<T>(ops: seq<Op<T>>, src: seq<T>, limit: Option<int>): seq<T> {
    if limit.None? then Eager(StripAll(ops), src)
    else if limit.value >= 1 then Prefix(Eager(StripAll(ops), src), limit.value)
    else Prefix(Eager(StripAll(ops), Prefix(src, 1)), 1)
  }

  lemma PrefixSplit<T>(a: seq<T>, b: seq<T>, n: nat)
    ensures Prefix(a + b, n) == if n <= |a| then Prefix(a, n) else a + Prefix(b, n - |a|)
  {
    CutSplit(a, b, Clamp(n, |a + b|));
  }

  lemma RunStep<T>(ops: seq<Op<T>>, src: seq<T>, acc: seq<T>)
    requires src != []
    ensures
      var p := Pass(ops, [src[0]]);
      Run(ops, src, None, acc) == if p.stop then acc + p.out else Run(p.ops, src[1..], None, acc + p.out)
  {
  }

  lemma {:induction false} RunClipsWithout<T(!new)>(ops: seq<Op<T>>, src: seq<T>, acc: seq<T>)
    requires Safe(ops, false)
    ensures Run(ops, src, None, acc) == acc + Eager(StripAll(ops), src)
    decreases |src|
  {
    if src == [] {
      EagerEmpty(StripAll(ops));
    } else {
      var r := src[1..];
      assert src == [src[0]] + r;
      var p := Pass(ops, [src[0]]);
      PassEager(ops, [src[0]], r, false);
      RunStep(ops, src, acc);
      if !p.stop {
        PassKeepsSafe(ops, [src[0]], false);
        RunClipsWithout(p.ops, r, acc + p.out);
        Associate(acc, p.out, Eager(StripAll(p.ops), r));
      }
    }
  }

  lemma {:induction false} RunExtends<T>(ops: seq<Op<T>>, src: seq<T>, acc: seq<T>)
    ensures acc <= Run(ops, src, None, acc)
    decreases |src|
  {
    if src == [] {
    } else {
      var p := Pass(ops, [src[0]]);
      if !p.stop {
        RunExtends(p.ops, src[1..], acc + p.out);
      }
    }
  }

  lemma PrefixOfExtension<T>(s: seq<T>, t: seq<T>, n: nat)
    requires s <= t && n <= |s|
    ensures Prefix(s, n) == Prefix(t, n)
  {
  }

  /** A limit of at least one only cuts the unlimited result, whatever the operations are. */
  lemma {:induction false} RunLimitIsPrefix<T>(ops: seq<Op<T>>, src: seq<T>, limit: int, acc: seq<T>)
    requires |acc| < limit
    ensures Run(ops, src, Some(limit), acc) == Prefix(Run(ops, src, None, acc), limit)
    decreases |src|
  {
    if src == [] {
    } else {
      var p := Pass(ops, [src[0]]);
      var all := acc + p.out;
      PrefixSplit(acc, p.out, limit);
      assert Push(acc, p.out, Some(limit)) == Prefix(all, limit);
      if |all| < limit {
        assert Prefix(all, limit) == all;
        if !p.stop {
          RunLimitIsPrefix(p.ops, src[1..], limit, all);
        }
      } else {
        RunExtends(p.ops, src[1..], all);
        PrefixOfExtension(all, Run(p.ops, src[1..], None, all), limit);
      }
    }
  }

  lemma RunClipsAtZero<T(!new)>(ops: seq<Op<T>>, src: seq<T>, limit: int)
    requires Safe(ops, false) && limit <= 0
    ensures Run(ops, src, Some(limit), []) == Clip(ops, src, Some(limit))
  {
    if src == [] {
      EagerEmpty(StripAll(ops));
    } else {
      var c := [src[0]];
      PassEager(ops, c, [], false);
      assert c + [] == c == Prefix(src, 1);
      EagerEmpty(StripAll(Pass(ops, c).ops));
    }
  }

  /** The one-pass interpreter computes the eager result cut at the limit, for every source and every cap. */
  lemma FusedIsClippedEager<T(!new)>(ops: seq<Op<T>>, src: seq<T>, cap: Option<int>)
    requires Safe(ops, false)
    ensures Fused(ops, src, cap) == Clip(ops, src, Tighter(cap, LastTake(ops)))
  {
    var limit := Tighter(cap, LastTake(ops));
    if limit.Some? && limit.value <= 0 {
      RunClipsAtZero(ops, src, limit.value);
    } else {
      RunClipsWithout(ops, src, []);
      assert Run(ops, src, None, []) == Eager(StripAll(ops), src);
      if limit.Some? {
        RunLimitIsPrefix(ops, src, limit.value, []);
        assert limit == Some(limit.value);
      }
    }
  }

  /** `first(n)` with n at least one returns the n-prefix of what the pipeline returns, for all pipelines. */
  lemma FirstIsPrefix<T>(ops: seq<Op<T>>, src: seq<T>, n: int)
    requires n >= 1
    ensures
      var all := Fused(ops, src, None);
      Fused(ops, src, Some(n)) == if n <= |all| then all[..n] else all
  {
    var last := LastTake(ops);
    if last.None? {
      RunLimitIsPrefix(ops, src, n, []);
    } else if last.value >= 1 {
      RunLimitIsPrefix(ops, src, n, []);
      RunLimitIsPrefix(ops, src, last.value, []);
    } else if src != [] {
      assert |Push([], Pass(ops, [src[0]]).out, last)| <= 1;
    }
  }

  /** The run stops by itself within the source: by the limit, or by a `take_while`. */
  predicate Halts<T>(ops: seq<Op<T>>, src: seq<T>, limit: Option<int>, acc: seq<T>)
    decreases |src|
  {
    src != [] &&
    var c := Pass(ops, [src[0]]);
    var acc' := Push(acc, c.out, limit);
    c.stop || Full(acc', limit) || Halts(c.ops, src[1..], limit, acc')
  }

  /** A run that stops gives the same result on every longer source, which is why an endless one is fine. */
  lemma {:induction false} RunIsLazy<T>(ops: seq<Op<T>>, src: seq<T>, more: seq<T>, limit: Option<int>, acc: seq<T>)
    requires Halts(ops, src, limit, acc)
    ensures Run(ops, src + more, limit, acc) == Run(ops, src, limit, acc)
    decreases |src|
  {
    var c := Pass(ops, [src[0]]);
    var acc' := Push(acc, c.out, limit);
    assert (src + more)[1..] == src[1..] + more;
    if !(c.stop || Full(acc', limit)) {
      RunIsLazy(c.ops, src[1..], more, limit, acc');
    }
  }

  // ---------------------------------------------------------------------------------------------
  // Which pipelines are faithful: a condition on the shape of the list alone
  // ---------------------------------------------------------------------------------------------

  /** An operation without its block. */
  datatype Kind = KSelect | KReject | KMap | KFlatMap | KTakeWhile | KDrop(n: int) | KDropWhile | KTake(n: int) | KOther

  function KindOf<T>(op: Op<T>): Kind {
    match op
    case Select(_) => KSelect
    case Reject(_) => KReject
    case Map(_) => KMap
    case FlatMap(_) => KFlatMap
    case TakeWhile(_) => KTakeWhile
    case Drop(n) => KDrop(n)
    case DropWhile(_) => KDropWhile
    case Take(n) => KTake(n)
    case Other => KOther
  }

  function Shape<T>(ops: seq<Op<T>>): (ks: seq<Kind>)
    ensures |ks| == |ops|
  {
    if ops == [] then [] else [KindOf(ops[0])] + Shape(ops[1..])
  }

  predicate InertKind(k: Kind) {
    k.KTake? || k.KOther? || (k.KDrop? && k.n <= 0)
  }

  predicate AllInertKinds(ks: seq<Kind>) {
    ks == [] || (InertKind(ks[0]) && AllInertKinds(ks[1..]))
  }

  /** No `take_while` stands after a `flat_map` and before an operation that does some work. */
  predicate SafeShape(ks: seq<Kind>, many: bool) {
    ks == [] ||
    (match ks[0]
     case KFlatMap => SafeShape(ks[1..], true)
     case KTakeWhile => (many ==> AllInertKinds(ks[1..])) && SafeShape(ks[1..], many)
     case _ => SafeShape(ks[1..], many))
  }

  /** How many values the eager reading can still pass on: `AtMost(0)` also stands for "cannot be known". */
  datatype Budget = Unlimited | AtMost(n: nat)

  function Charge(b: Budget, k: Kind): Budget {
    match k
    case KTake(n) => if b.Unlimited? then AtMost(if n < 0 then 0 else n) else AtMost(Clamp(n, b.n))
    case KDrop(n) => if b.Unlimited? then b else AtMost(b.n - Clamp(n, b.n))
    case KMap => b
    case KTakeWhile => b
    case KOther => b
    case _ => if b.Unlimited? then b else AtMost(0)
  }

  function BudgetOf(ks: seq<Kind>, b: Budget): Budget {
    if ks == [] then b else BudgetOf(ks[1..], Charge(b, ks[0]))
  }

  function LastTakeOf(ks: seq<Kind>): Option<int> {
    if ks == [] then None
    else if LastTakeOf(ks[1..]).Some? then LastTakeOf(ks[1..])
    else if ks[0].KTake? then Some(ks[0].n) else None
  }

  /** The first source element is dropped before a `flat_map` could multiply it. */
  predicate DropsFirst(ks: seq<Kind>) {
    ks != [] && ((ks[0].KDrop? && ks[0].n > 0) || (!ks[0].KFlatMap? && DropsFirst(ks[1..])))
  }

  predicate Faithful(ks: seq<Kind>) {
    var last := LastTakeOf(ks);
    if last.Some? && last.value <= 0 then DropsFirst(ks)
    else SafeShape(ks, false) && (last.Some? ==> BudgetOf(ks, Unlimited) == AtMost(last.value))
  }

  lemma {:induction false} ShapeFacts<T>(ops: seq<Op<T>>)
    ensures LastTakeOf(Shape(ops)) == LastTake(ops)
    ensures AllInertKinds(Shape(ops)) ==> AllInert(ops)
  {
    if ops == [] {
    } else {
      ShapeFacts(ops[1..]);
      assert Shape(ops)[1..] == Shape(ops[1..]);
    }
  }

  lemma {:induction false} SafeShapeIsSafe<T(!new)>(ops: seq<Op<T>>, many: bool)
    requires SafeShape(Shape(ops), many)
    ensures Safe(ops, many)
  {
    if ops == [] {
    } else {
      assert Shape(ops)[1..] == Shape(ops[1..]);
      SafeShapeIsSafe(ops[1..], many || ops[0].FlatMap?);
      ShapeFacts(ops[1..]);
    }
  }

  function Cut<T>(s: seq<T>, b: Budget): seq<T> {
    if b.Unlimited? then s else Prefix(s, b.n)
  }

  lemma {:induction false} NoBudgetLeft(ks: seq<Kind>)
    ensures BudgetOf(ks, AtMost(0)) == AtMost(0)
  {
    if ks == [] {
    } else {
      NoBudgetLeft(ks[1..]);
    }
  }

  lemma PrefixOfPrefix<T>(s: seq<T>, b: nat, n: int)
    ensures Prefix(Prefix(s, b), n) == Prefix(s, Clamp(n, b))
  {
  }

  lemma DropOfPrefix<T>(s: seq<T>, b: nat, n: int)
    ensures Prefix(s, b)[Clamp(n, |Prefix(s, b)|)..] == Prefix(s[Clamp(n, |s|)..], b - Clamp(n, b))
  {
  }

  lemma PrefixApply<T>(op: Op<T>, s: seq<T>, b: nat)
    requires op.Map? || op.TakeWhile?
    ensures Apply(op, Prefix(s, b)) == Prefix(Apply(op, s), b)
  {
    var m := Clamp(b, |s|);
    assert s == s[..m] + s[m..];
    if op.Map? {
      MapSplit(s[..m], s[m..], op.f);
    } else {
      LeadingSplit(s[..m], s[m..], op.p);
    }
  }

  lemma CutApply<T>(op: Op<T>, s: seq<T>, b: Budget)
    requires Charge(b, KindOf(op)) != AtMost(0)
    ensures Apply(op, Cut(s, b)) == Cut(Apply(Strip(op), s), Charge(b, KindOf(op)))
  {
    if b.Unlimited? {
    } else if op.Map? || op.TakeWhile? {
      PrefixApply(op, s, b.n);
    } else if op.Take? {
      PrefixOfPrefix(s, b.n, op.n);
    } else if op.Drop? {
      DropOfPrefix(s, b.n, op.n);
    }
  }

  lemma {:induction false} EagerWithinBudget<T>(ops: seq<Op<T>>, s: seq<T>, b: Budget)
    requires BudgetOf(Shape(ops), b) != AtMost(0)
    ensures Eager(ops, Cut(s, b)) == Cut(Eager(StripAll(ops), s), BudgetOf(Shape(ops), b))
  {
    if ops == [] {
    } else {
      var b' := Charge(b, KindOf(ops[0]));
      assert Shape(ops)[1..] == Shape(ops[1..]) && StripAll(ops)[1..] == StripAll(ops[1..]);
      if b' == AtMost(0) {
        NoBudgetLeft(Shape(ops[1..]));
      }
      CutApply(ops[0], s, b);
      EagerWithinBudget(ops[1..], Apply(Strip(ops[0]), s), b');
    }
  }

  lemma {:induction false} UnlimitedMeansNoTake(ks: seq<Kind>, b: Budget)
    ensures BudgetOf(ks, b).Unlimited? <==> b.Unlimited? && LastTakeOf(ks).None?
  {
    if ks == [] {
    } else {
      UnlimitedMeansNoTake(ks[1..], Charge(b, ks[0]));
    }
  }

  lemma {:induction false} DropsFirstPass<T>(ops: seq<Op<T>>, c: seq<T>)
    requires DropsFirst(Shape(ops)) && |c| <= 1
    ensures Pass(ops, c).out == []
  {
    var out := Apply(Strip(ops[0]), c);
    assert Shape(ops)[1..] == Shape(ops[1..]);
    if out == [] {
      PassEmpty(ops[1..]);
    } else if !Stops(ops[0], c) {
      DropsFirstPass(ops[1..], out);
    }
  }

  lemma {:induction false} EagerTakesNothing<T>(ops: seq<Op<T>>, s: seq<T>)
    requires LastTake(ops).Some? && LastTake(ops).value <= 0
    ensures Eager(ops, s) == []
  {
    if LastTake(ops[1..]).Some? {
      EagerTakesNothing(ops[1..], Apply(ops[0], s));
    } else {
      EagerEmpty(ops[1..]);
    }
  }

  /** A pipeline of faithful shape gives the eager result whatever its blocks compute. */
  lemma FaithfulAgrees<T(!new)>(ops: seq<Op<T>>, src: seq<T>)
    requires Faithful(Shape(ops))
    ensures Fused(ops, src, None) == Eager(ops, src)
  {
    ShapeFacts(ops);
    var last := LastTake(ops);
    if last.Some? && last.value <= 0 {
      EagerTakesNothing(ops, src);
      if src != [] {
        DropsFirstPass(ops, [src[0]]);
      }
    } else {
      SafeShapeIsSafe(ops, false);
      FusedIsClippedEager(ops, src, None);
      UnlimitedMeansNoTake(Shape(ops), Unlimited);
      EagerWithinBudget(ops, src, Unlimited);
    }
  }

  // ---------------------------------------------------------------------------------------------
  // What a run returns, in terms of the blocks
  // ---------------------------------------------------------------------------------------------

  lemma {:induction false} EagerSplit<T>(xs: seq<Op<T>>, ys: seq<Op<T>>, s: seq<T>)
    ensures Eager(xs + ys, s) == Eager(ys, Eager(xs, s))
  {
    if xs == [] {
      assert xs + ys == ys;
    } else {
      assert (xs + ys)[1..] == xs[1..] + ys;
      EagerSplit(xs[1..], ys, Apply(xs[0], s));
    }
  }

  /** A pipeline may be cut in two: the second half run on what the first half returns. */
  lemma RunInStages<T(!new)>(xs: seq<Op<T>>, ys: seq<Op<T>>, src: seq<T>)
    requires Faithful(Shape(xs)) && Faithful(Shape(ys)) && Faithful(Shape(xs + ys))
    ensures Fused(xs + ys, src, None) == Fused(ys, Fused(xs, src, None), None)
  {
    EagerSplit(xs, ys, src);
    FaithfulAgrees(xs + ys, src);
    FaithfulAgrees(xs, src);
    FaithfulAgrees(ys, Fused(xs, src, None));
  }

  /** Without operations the source comes back. */
  lemma RunOfNothing<T(!new)>(src: seq<T>)
    ensures Fused([], src, None) == src
    ensures Fused([Other], src, None) == src
  {
    FaithfulAgrees([], src);
    RunOfOne(Other, src);
  }

  /** `take` of nothing still returns the first value: the limit is looked at after it. */
  lemma RunOfTakeNone<T(!new)>(n: int, src: seq<T>)
    requires n <= 0
    ensures Fused([Take(n)], src, None) == if src == [] then [] else [src[0]]
  {
    if src == [] {
    } else {
      var ops, rest := [Take(n)], [Take(n)][1..];
      assert rest == [] && LastTake(rest) == None && LastTake(ops) == Some(n);
      assert Pass(rest, [src[0]]) == Chunk([], [src[0]], false);
      assert Pass(ops, [src[0]]).out == [src[0]];
      assert Push([], [src[0]], Some(n)) == [src[0]];
    }
  }

  lemma RunOfOne<T(!new)>(op: Op<T>, src: seq<T>)
    requires op.Take? ==> op.n > 0
    ensures Fused([op], src, None) == Apply(op, src)
  {
    var ks := Shape([op]);
    assert ks == [KindOf(op)] && ks[1..] == [];
    assert SafeShape(ks[1..], false) && SafeShape(ks[1..], true) && LastTakeOf(ks[1..]) == None;
    assert BudgetOf(ks, Unlimited) == BudgetOf(ks[1..], Charge(Unlimited, ks[0])) == Charge(Unlimited, ks[0]);
    assert Faithful(ks);
    FaithfulAgrees([op], src);
    assert [op][1..] == [] && Eager([op], src) == Eager([op][1..], Apply(op, src));
  }

  /** `map` applies its block once to every value. */
  lemma RunOfMap<T(!new)>(f: T -> T, src: seq<T>)
    ensures
      var r := Fused([Map(f)], src, None);
      |r| == |src| && forall i :: 0 <= i < |src| ==> r[i] == f(src[i])
  {
    RunOfOne(Map(f), src);
    MapExact(src, f);
  }

  /** `select` returns the values that satisfy the block, in their order. */
  lemma RunOfSelect<T(!new)>(p: T -> bool, src: seq<T>) returns (idx: seq<nat>)
    ensures Positions(idx, src, p) && Selects(Fused([Select(p)], src, None), idx, src)
  {
    RunOfOne(Select(p), src);
    idx := FilterExact(src, p);
  }

  /** `reject` returns the others. */
  lemma RunOfReject<T(!new)>(p: T -> bool, src: seq<T>) returns (idx: seq<nat>)
    ensures Positions(idx, src, x => !p(x)) && Selects(Fused([Reject(p)], src, None), idx, src)
  {
    RunOfOne(Reject(p), src);
    idx := FilterExact(src, Not(p));
  }

  /** `flat_map` puts what the block returns in the place of every value. */
  lemma RunOfFlatMap<T(!new)>(g: T -> seq<T>, c: seq<T>, x: T, r: seq<T>)
    ensures Fused([FlatMap(g)], [], None) == []
    ensures Fused([FlatMap(g)], c + [x] + r, None) ==
              Fused([FlatMap(g)], c, None) + g(x) + Fused([FlatMap(g)], r, None)
  {
    RunOfOne(FlatMap(g), c + [x] + r);
    RunOfOne(FlatMap(g), c);
    RunOfOne(FlatMap(g), r);
    FlatMapExact(c, x, r, g);
  }

  /** `take_while` and `drop_while` cut at the first value that the block refuses. */
  lemma RunOfWhile<T(!new)>(p: T -> bool, src: seq<T>) returns (n: nat)
    ensures n <= |src| && (forall i :: 0 <= i < n ==> p(src[i])) && (n < |src| ==> !p(src[n]))
    ensures Fused([TakeWhile(p)], src, None) == src[..n] && Fused([DropWhile(p)], src, None) == src[n..]
  {
    n := Leading(src, p);
    LeadingExact(src, p);
    RunOfOne(TakeWhile(p), src);
    RunOfOne(DropWhile(p), src);
  }

  /** `take(n)` and `drop(n)` cut at `n`. */
  lemma RunOfCount<T(!new)>(n: int, src: seq<T>)
    ensures n > 0 ==> Fused([Take(n)], src, None) == if n <= |src| then src[..n] else src
    ensures Fused([Drop(n)], src, None) == if n <= 0 then src else if n <= |src| then src[n..] else []
  {
    if n > 0 {
      RunOfOne(Take(n), src);
    }
    RunOfOne(Drop(n), src);
  }

  /** A `take` stands at `i`, and none behind it. */
  ghost predicate LastTakeAt<T>(ops: seq<Op<T>>, i: nat, n: int) {
    i < |ops| && ops[i] == Take(n) && forall j :: i < j < |ops| ==> !ops[j].Take?
  }

  /** The limit that a list of operations sets is its last `take`. */
  lemma {:induction false} LastTakeExact<T>(ops: seq<Op<T>>)
    ensures LastTake(ops).None? <==> forall i :: 0 <= i < |ops| ==> !ops[i].Take?
    ensures LastTake(ops).Some? ==> exists i: nat :: LastTakeAt(ops, i, LastTake(ops).value)
  {
    if ops == [] {
    } else {
      var rest := ops[1..];
      LastTakeExact(rest);
      assert forall j :: 0 < j < |ops| ==> ops[j] == rest[j - 1];
      if LastTake(rest).Some? {
        var i: nat :| LastTakeAt(rest, i, LastTake(rest).value);
        assert LastTakeAt(ops, i + 1, LastTake(rest).value);
      } else if ops[0].Take? {
        assert LastTakeAt(ops, 0, ops[0].n);
      }
    }
  }

  // ---------------------------------------------------------------------------------------------
  // Every other shape has blocks and a source on which the two readings differ
  // ---------------------------------------------------------------------------------------------

  function Rep(v: int, n: nat): (s: seq<int>)
    ensures |s| == n
  {
    seq(n, _ => v)
  }

  /** An operation whose block lets every value through. */
  function Idle(k: Kind): (op: Op<int>)
    ensures KindOf(op) == k
  {
    match k
    case KSelect => Select(_ => true)
    case KReject => Reject(_ => false)
    case KMap => Map(x => x)
    case KFlatMap => FlatMap(x => [x])
    case KTakeWhile => TakeWhile(_ => true)
    case KDrop(n) => Drop(n)
    case KDropWhile => DropWhile(_ => false)
    case KTake(n) => Take(n)
    case KOther => Other
  }

  function IdleAll(ks: seq<Kind>): (ops: seq<Op<int>>)
    ensures |ops| == |ks|
  {
    if ks == [] then [] else [Idle(ks[0])] + IdleAll(ks[1..])
  }

  function DropOf(k: Kind): nat {
    if k.KDrop? && k.n > 0 then k.n else 0
  }

  /** An upper bound on what the drops and takes of a list can consume. */
  function Weight(ks: seq<Kind>): nat {
    if ks == [] then 0
    else DropOf(ks[0]) + (if ks[0].KTake? && ks[0].n > 0 then ks[0].n else 0) + Weight(ks[1..])
  }

  lemma {:induction false} FilterConst(s: seq<int>, p: int -> bool, keep: bool)
    requires forall i :: 0 <= i < |s| ==> p(s[i]) == keep
    ensures Filter(s, p) == if keep then s else []
  {
    if s == [] {
    } else {
      FilterConst(s[1..], p, keep);
    }
  }

  lemma {:induction false} MapIdentity(s: seq<int>, f: int -> int)
    requires forall x :: f(x) == x
    ensures MapAll(s, f) == s
  {
    if s == [] {
    } else {
      MapIdentity(s[1..], f);
    }
  }

  lemma {:induction false} FlatMapConst(s: seq<int>, g: int -> seq<int>, keep: bool)
    requires forall i :: 0 <= i < |s| ==> g(s[i]) == if keep then [s[i]] else []
    ensures FlatMapAll(s, g) == if keep then s else []
  {
    if s == [] {
    } else {
      FlatMapConst(s[1..], g, keep);
    }
  }

  lemma {:induction false} LeadingConst(s: seq<int>, p: int -> bool, keep: bool)
    requires forall i :: 0 <= i < |s| ==> p(s[i]) == keep
    ensures Leading(s, p) == if keep then |s| else 0
  {
    if s == [] {
    } else {
      LeadingConst(s[1..], p, keep);
    }
  }

  lemma IdleApply(k: Kind, s: seq<int>)
    ensures !Stops(Idle(k), s)
    ensures Apply(Strip(Idle(k)), s) == s[Clamp(DropOf(k), |s|)..]
    ensures Apply(Idle(k), s) == if k.KTake? then Prefix(s, k.n) else s[Clamp(DropOf(k), |s|)..]
  {
    var op := Idle(k);
    if op.Select? {
      FilterConst(s, op.p, true);
    } else if op.Reject? {
      FilterConst(s, Not(op.p), true);
    } else if op.Map? {
      MapIdentity(s, op.f);
    } else if op.FlatMap? {
      FlatMapConst(s, op.g, true);
    } else if op.TakeWhile? {
      LeadingConst(s, op.p, true);
    } else if op.DropWhile? {
      LeadingConst(s, op.p, false);
    }
  }

  lemma {:induction false} IdlePass(ks: seq<Kind>, c: seq<int>)
    requires |c| > Weight(ks)
    ensures Pass(IdleAll(ks), c).out != []
  {
    if ks == [] {
    } else {
      IdleApply(ks[0], c);
      assert IdleAll(ks)[1..] == IdleAll(ks[1..]);
      IdlePass(ks[1..], c[Clamp(DropOf(ks[0]), |c|)..]);
    }
  }

  /** The first `flat_map` multiplies the value so often that no later `drop` can use it up. */
  function Multiplying(ks: seq<Kind>): (ops: seq<Op<int>>)
    ensures |ops| == |ks|
  {
    if ks == [] then []
    else if ks[0].KFlatMap? then
      [FlatMap(_ => Rep(0, Weight(ks[1..]) + 1))] + IdleAll(ks[1..])
    else [Idle(ks[0])] + Multiplying(ks[1..])
  }

  lemma {:induction false} IdleShape(ks: seq<Kind>)
    ensures Shape(IdleAll(ks)) == ks
  {
    if ks == [] {
    } else {
      IdleShape(ks[1..]);
      assert IdleAll(ks)[1..] == IdleAll(ks[1..]);
    }
  }

  lemma {:induction false} MultiplyingPass(ks: seq<Kind>)
    requires !DropsFirst(ks)
    ensures Pass(Multiplying(ks), [0]).out != []
    ensures Shape(Multiplying(ks)) == ks
  {
    if ks == [] {
    } else {
      var ops := Multiplying(ks);
      if ks[0].KFlatMap? {
        IdlePass(ks[1..], Rep(0, Weight(ks[1..]) + 1));
        IdleShape(ks[1..]);
        assert ops[1..] == IdleAll(ks[1..]);
        assert FlatMapAll([0], ops[0].g) == ops[0].g(0) + FlatMapAll([], ops[0].g);
        assert Apply(Strip(ops[0]), [0]) == Rep(0, Weight(ks[1..]) + 1);
      } else {
        IdleApply(ks[0], [0]);
        MultiplyingPass(ks[1..]);
        assert ops[1..] == Multiplying(ks[1..]);
        assert [0][Clamp(DropOf(ks[0]), 1)..] == [0];
      }
    }
  }

  lemma DifferAtZero(ks: seq<Kind>) returns (ops: seq<Op<int>>, src: seq<int>)
    requires LastTakeOf(ks).Some? && LastTakeOf(ks).value <= 0 && !DropsFirst(ks)
    ensures Shape(ops) == ks && Fused(ops, src, None) != Eager(ops, src)
  {
    ops, src := Multiplying(ks), [0];
    MultiplyingPass(ks);
    ShapeFacts(ops);
    EagerTakesNothing(ops, src);
  }

  /** Zeros come early, ones come late. */
  function Early(zeros: nat, ones: nat): (s: seq<int>)
    ensures |s| == zeros + ones
  {
    Rep(0, zeros) + Rep(1, ones)
  }

  predicate Selective(k: Kind) {
    k.KSelect? || k.KReject? || k.KFlatMap? || k.KDropWhile?
  }

  /** A block that lets only the late values through, for the kinds whose block can do that. */
  function Late(k: Kind): (op: Op<int>)
    ensures KindOf(op) == k
  {
    match k
    case KSelect => Select(x => x == 1)
    case KReject => Reject(x => x != 1)
    case KFlatMap => FlatMap(x => if x == 1 then [x] else [])
    case KDropWhile => DropWhile(x => x != 1)
    case _ => Idle(k)
  }

  lemma FilterLate(p: int -> bool, zeros: nat, ones: nat)
    requires !p(0) && p(1)
    ensures Filter(Early(zeros, ones), p) == Rep(1, ones)
  {
    var c, r := Rep(0, zeros), Rep(1, ones);
    FilterSplit(c, r, p);
    FilterConst(c, p, false);
    FilterConst(r, p, true);
  }

  lemma FlatMapLate(g: int -> seq<int>, zeros: nat, ones: nat)
    requires g(0) == [] && g(1) == [1]
    ensures FlatMapAll(Early(zeros, ones), g) == Rep(1, ones)
  {
    var c, r := Rep(0, zeros), Rep(1, ones);
    FlatMapSplit(c, r, g);
    FlatMapConst(c, g, false);
    FlatMapConst(r, g, true);
  }

  lemma LeadingLate(p: int -> bool, zeros: nat, ones: nat)
    requires p(0) && !p(1)
    ensures Early(zeros, ones)[Leading(Early(zeros, ones), p)..] == Rep(1, ones)
  {
    var c, r := Rep(0, zeros), Rep(1, ones);
    LeadingSplit(c, r, p);
    LeadingConst(c, p, true);
    LeadingConst(r, p, false);
  }

  lemma LateApply(k: Kind, zeros: nat, ones: nat)
    requires Selective(k)
    ensures Apply(Late(k), Early(zeros, ones)) == Early(0, ones)
  {
    var op := Late(k);
    assert Early(0, ones) == Rep(1, ones);
    if op.Select? {
      FilterLate(op.p, zeros, ones);
    } else if op.Reject? {
      FilterLate(Not(op.p), zeros, ones);
    } else if op.FlatMap? {
      FlatMapLate(op.g, zeros, ones);
    } else {
      LeadingLate(op.p, zeros, ones);
    }
  }

  /** Idle until a `take` has been passed; then the first selective block refuses everything early. */
  function Adversary(ks: seq<Kind>, b: Budget): (ops: seq<Op<int>>)
    ensures |ops| == |ks|
  {
    if ks == [] then []
    else [if b.AtMost? && Selective(ks[0]) then Late(ks[0]) else Idle(ks[0])] + Adversary(ks[1..], Charge(b, ks[0]))
  }

  lemma {:induction false} AdversaryShape(ks: seq<Kind>, b: Budget, many: bool)
    ensures Shape(Adversary(ks, b)) == ks && Safe(Adversary(ks, b), many)
  {
    if ks == [] {
    } else {
      AdversaryShape(ks[1..], Charge(b, ks[0]), many || ks[0].KFlatMap?);
      assert Adversary(ks, b)[1..] == Adversary(ks[1..], Charge(b, ks[0]));
    }
  }

  /** The source as the stripped list sees it at some point, and as the eager reading sees it there. */
  ghost predicate Streams(ks: seq<Kind>, b: Budget, spare: nat, s: seq<int>, zeros: nat, ones: nat) {
    && ones >= Weight(ks) + spare
    && if b.Unlimited? then s == Early(zeros, ones) && zeros >= Weight(ks) else s == Rep(0, b.n)
  }

  lemma EarlyCut(zeros: nat, ones: nat, d: nat)
    ensures Early(zeros, ones)[Clamp(d, zeros + ones)..] ==
            Early(zeros - Clamp(d, zeros), ones - Clamp(d - zeros, ones))
  {
  }

  lemma ZerosCut(n: nat, d: int)
    ensures Rep(0, n)[Clamp(d, n)..] == Rep(0, n - Clamp(d, n))
    ensures Prefix(Rep(0, n), d) == Rep(0, Clamp(d, n))
  {
  }

  lemma IdleStreams(ks: seq<Kind>, b: Budget, spare: nat, s: seq<int>, zeros: nat, ones: nat)
    returns (zeros': nat, ones': nat)
    requires ks != [] && Streams(ks, b, spare, s, zeros, ones) && !(b.AtMost? && Selective(ks[0]))
    ensures Apply(Strip(Idle(ks[0])), Early(zeros, ones)) == Early(zeros', ones')
    ensures Streams(ks[1..], Charge(b, ks[0]), spare, Apply(Idle(ks[0]), s), zeros', ones')
  {
    zeros', ones' := IdleEarly(ks[0], zeros, ones);
    if b.AtMost? {
      IdleLimited(ks[0], b.n);
    } else {
      IdleUnlimited(ks[0], zeros, ones);
    }
  }

  lemma IdleEarly(k: Kind, zeros: nat, ones: nat) returns (zeros': nat, ones': nat)
    ensures Apply(Strip(Idle(k)), Early(zeros, ones)) == Early(zeros', ones')
    ensures ones' >= ones - DropOf(k) && (zeros >= DropOf(k) ==> zeros' == zeros - DropOf(k) && ones' == ones)
  {
    var d := DropOf(k);
    zeros', ones' := zeros - Clamp(d, zeros), ones - Clamp(d - zeros, ones);
    IdleApply(k, Early(zeros, ones));
    EarlyCut(zeros, ones, d);
  }

  /** Once a `take` has been passed, all that is left are zeros, as many as the budget says. */
  lemma IdleLimited(k: Kind, n: nat)
    requires !Selective(k)
    ensures Charge(AtMost(n), k).AtMost?
    ensures Apply(Idle(k), Rep(0, n)) == Rep(0, Charge(AtMost(n), k).n)
  {
    IdleApply(k, Rep(0, n));
    ZerosCut(n, if k.KTake? then k.n else DropOf(k));
  }

  /** Before that, zeros followed by ones are left, unless this is the first `take`. */
  lemma IdleUnlimited(k: Kind, zeros: nat, ones: nat)
    requires zeros >= if k.KTake? then k.n else DropOf(k)
    ensures
      var b, s := Charge(Unlimited, k), Apply(Idle(k), Early(zeros, ones));
      if b.Unlimited? then s == Early(zeros - DropOf(k), ones) else s == Rep(0, b.n)
  {
    IdleApply(k, Early(zeros, ones));
    EarlyCut(zeros, ones, DropOf(k));
    if k.KTake? {
      EarlyPrefix(zeros, ones, k.n);
    }
  }

  lemma EarlyPrefix(zeros: nat, ones: nat, n: int)
    requires n <= zeros
    ensures Prefix(Early(zeros, ones), n) == Rep(0, if n < 0 then 0 else n)
  {
  }

  lemma {:induction false} AdversaryRun(ks: seq<Kind>, b: Budget, spare: nat, s: seq<int>, zeros: nat, ones: nat)
    requires Streams(ks, b, spare, s, zeros, ones)
    ensures BudgetOf(ks, b).AtMost? ==> |Eager(Adversary(ks, b), s)| == BudgetOf(ks, b).n
    ensures |Eager(StripAll(Adversary(ks, b)), Early(zeros, ones))| >= spare
  {
    if ks == [] {
    } else {
      var ops := Adversary(ks, b);
      assert ops[1..] == Adversary(ks[1..], Charge(b, ks[0]));
      assert StripAll(ops)[0] == Strip(ops[0]) && StripAll(ops)[1..] == StripAll(ops[1..]);
      if b.AtMost? && Selective(ks[0]) {
        LateApply(ks[0], zeros, ones);
        LateApply(ks[0], b.n, 0);
        assert Early(b.n, 0) == s && Early(0, 0) == Rep(0, 0);
        AdversaryRun(ks[1..], Charge(b, ks[0]), spare, Rep(0, 0), 0, ones);
      } else {
        var zeros', ones' := IdleStreams(ks, b, spare, s, zeros, ones);
        AdversaryRun(ks[1..], Charge(b, ks[0]), spare, Apply(Idle(ks[0]), s), zeros', ones');
      }
    }
  }

  lemma DifferOnBudget(ks: seq<Kind>) returns (ops: seq<Op<int>>, src: seq<int>)
    requires LastTakeOf(ks).Some? && LastTakeOf(ks).value >= 1
    requires BudgetOf(ks, Unlimited) != AtMost(LastTakeOf(ks).value)
    ensures Shape(ops) == ks && Fused(ops, src, None) != Eager(ops, src)
  {
    var w, last := Weight(ks), LastTakeOf(ks).value;
    ops, src := Adversary(ks, Unlimited), Early(w, w + last);
    AdversaryShape(ks, Unlimited, false);
    ShapeFacts(ops);
    FusedIsClippedEager(ops, src, None);
    UnlimitedMeansNoTake(ks, Unlimited);
    AdversaryRun(ks, Unlimited, last, src, w, w + last);
  }

  // A stopping `take_while` that has seen part of a batch lets that part escape the operations after it.

  predicate TrapAfter(ks: seq<Kind>) {
    ks != [] && (TrapHere(ks) || TrapAfter(ks[1..]))
  }

  predicate TrapHere(ks: seq<Kind>)
    requires ks != []
  {
    ks[0].KTakeWhile? && !AllInertKinds(ks[1..])
  }

  predicate TrapBefore(ks: seq<Kind>) {
    ks != [] && if ks[0].KFlatMap? then TrapAfter(ks[1..]) else TrapBefore(ks[1..])
  }

  lemma {:induction false} UnsafeShapeTraps(ks: seq<Kind>, many: bool)
    requires !SafeShape(ks, many)
    ensures if many then TrapAfter(ks) else TrapBefore(ks)
  {
    if many && TrapHere(ks) {
    } else {
      UnsafeShapeTraps(ks[1..], many || ks[0].KFlatMap?);
    }
  }

  /** The drops between the first `flat_map` and the trap, and the drops before that `flat_map`. */
  function Lead(ks: seq<Kind>): nat
    requires TrapAfter(ks)
  {
    if TrapHere(ks) then 0 else DropOf(ks[0]) + Lead(ks[1..])
  }

  function Fore(ks: seq<Kind>): nat
    requires TrapBefore(ks)
  {
    if ks[0].KFlatMap? then 0 else DropOf(ks[0]) + Fore(ks[1..])
  }

  function Bait(lead: nat): seq<int> {
    Rep(0, lead + 1) + [1]
  }

  function Spoil(k: Kind): (op: Op<int>)
    ensures KindOf(op) == k
  {
    match k
    case KSelect => Select(_ => false)
    case KReject => Reject(_ => true)
    case KMap => Map(_ => 2)
    case KFlatMap => FlatMap(_ => [])
    case KTakeWhile => TakeWhile(_ => false)
    case KDropWhile => DropWhile(_ => true)
    case _ => Idle(k)
  }

  function Spoiling(ks: seq<Kind>): (ops: seq<Op<int>>)
    requires !AllInertKinds(ks)
    ensures |ops| == |ks|
  {
    if InertKind(ks[0]) then [Idle(ks[0])] + Spoiling(ks[1..]) else [Spoil(ks[0])] + IdleAll(ks[1..])
  }

  function Baited(ks: seq<Kind>): (ops: seq<Op<int>>)
    requires TrapAfter(ks)
    ensures |ops| == |ks|
  {
    if TrapHere(ks) then [TakeWhile(x => x == 0)] + Spoiling(ks[1..]) else [Idle(ks[0])] + Baited(ks[1..])
  }

  function Trap(ks: seq<Kind>): (ops: seq<Op<int>>)
    requires TrapBefore(ks)
    ensures |ops| == |ks|
  {
    if ks[0].KFlatMap? then [FlatMap(_ => Bait(Lead(ks[1..])))] + Baited(ks[1..]) else [Idle(ks[0])] + Trap(ks[1..])
  }

  lemma {:induction false} SpoilingShape(ks: seq<Kind>)
    requires !AllInertKinds(ks)
    ensures Shape(Spoiling(ks)) == ks
  {
    if InertKind(ks[0]) {
      SpoilingShape(ks[1..]);
      assert Spoiling(ks)[1..] == Spoiling(ks[1..]);
    } else {
      IdleShape(ks[1..]);
      assert Spoiling(ks)[1..] == IdleAll(ks[1..]);
    }
  }

  lemma {:induction false} BaitedShape(ks: seq<Kind>)
    requires TrapAfter(ks)
    ensures Shape(Baited(ks)) == ks
  {
    if TrapHere(ks) {
      SpoilingShape(ks[1..]);
      assert Baited(ks)[1..] == Spoiling(ks[1..]);
    } else {
      BaitedShape(ks[1..]);
      assert Baited(ks)[1..] == Baited(ks[1..]);
    }
  }

  lemma {:induction false} TrapShape(ks: seq<Kind>)
    requires TrapBefore(ks)
    ensures Shape(Trap(ks)) == ks
  {
    if ks[0].KFlatMap? {
      BaitedShape(ks[1..]);
      assert Trap(ks)[1..] == Baited(ks[1..]);
    } else {
      TrapShape(ks[1..]);
      assert Trap(ks)[1..] == Trap(ks[1..]);
    }
  }

  lemma {:induction false} IdleEagerAvoids(ks: seq<Kind>, s: seq<int>)
    requires 0 !in s
    ensures 0 !in Eager(IdleAll(ks), s)
  {
    if ks == [] {
    } else {
      IdleApply(ks[0], s);
      assert IdleAll(ks)[1..] == IdleAll(ks[1..]);
      IdleEagerAvoids(ks[1..], Apply(Idle(ks[0]), s));
    }
  }

  lemma SpoilApply(k: Kind, s: seq<int>)
    requires !InertKind(k) && |s| <= 1
    ensures 0 !in Apply(Spoil(k), s)
  {
    var op := Spoil(k);
    if op.Select? {
      FilterConst(s, op.p, false);
    } else if op.Reject? {
      FilterConst(s, Not(op.p), false);
    } else if op.FlatMap? {
      FlatMapConst(s, op.g, false);
    } else if op.DropWhile? {
      LeadingConst(s, op.p, true);
    }
  }

  lemma {:induction false} SpoilingEager(ks: seq<Kind>, s: seq<int>)
    requires !AllInertKinds(ks) && s <= [0]
    ensures 0 !in Eager(Spoiling(ks), s)
  {
    if InertKind(ks[0]) {
      IdleApply(ks[0], s);
      assert Spoiling(ks)[1..] == Spoiling(ks[1..]);
      SpoilingEager(ks[1..], Apply(Idle(ks[0]), s));
    } else {
      SpoilApply(ks[0], s);
      assert Spoiling(ks)[1..] == IdleAll(ks[1..]);
      IdleEagerAvoids(ks[1..], Apply(Spoil(ks[0]), s));
    }
  }

  /** The trap keeps at most the zero of the bait. */
  lemma TrapKeeps(p: int -> bool, s: seq<int>)
    requires s <= Bait(0) && p(0) && !p(1)
    ensures s[..Leading(s, p)] <= [0]
  {
    if |s| == 2 {
      assert s == [0] + [1];
      LeadingSplit([0], [1], p);
      LeadingConst([0], p, true);
      LeadingConst([1], p, false);
    }
  }

  lemma {:induction false} BaitedEager(ks: seq<Kind>, s: seq<int>)
    requires TrapAfter(ks) && s <= Bait(Lead(ks))
    ensures 0 !in Eager(Baited(ks), s)
  {
    if TrapHere(ks) {
      assert Baited(ks)[1..] == Spoiling(ks[1..]);
      TrapKeeps(Baited(ks)[0].p, s);
      SpoilingEager(ks[1..], Apply(Baited(ks)[0], s));
    } else {
      IdleApply(ks[0], s);
      assert Baited(ks)[1..] == Baited(ks[1..]);
      BaitedEager(ks[1..], Apply(Idle(ks[0]), s));
    }
  }

  lemma {:induction false} TrapEager(ks: seq<Kind>, s: seq<int>)
    requires TrapBefore(ks) && s <= Rep(0, Fore(ks) + 1)
    ensures 0 !in Eager(Trap(ks), s)
  {
    if ks[0].KFlatMap? {
      TrapSpringsEager(ks, s);
    } else {
      IdleApply(ks[0], s);
      assert Trap(ks)[1..] == Trap(ks[1..]);
      TrapEager(ks[1..], Apply(Idle(ks[0]), s));
    }
  }

  lemma TrapSpringsEager(ks: seq<Kind>, s: seq<int>)
    requires TrapBefore(ks) && ks[0].KFlatMap? && |s| <= 1
    ensures 0 !in Eager(Trap(ks), s)
  {
    var ops := Trap(ks);
    assert ops[1..] == Baited(ks[1..]);
    OneBait(ops[0].g, s, Bait(Lead(ks[1..])));
    BaitedEager(ks[1..], Apply(ops[0], s));
  }

  /** At most one value is multiplied. */
  lemma OneBait(g: int -> seq<int>, s: seq<int>, bait: seq<int>)
    requires |s| <= 1 && forall x :: g(x) == bait
    ensures FlatMapAll(s, g) <= bait
  {
    if s != [] {
      assert s == [s[0]];
      FlatMapExact([], s[0], [], g);
      assert [] + [s[0]] + [] == s;
    }
  }

  lemma {:induction false} BaitedPass(ks: seq<Kind>)
    requires TrapAfter(ks)
    ensures Pass(Baited(ks), Bait(Lead(ks))).stop && Pass(Baited(ks), Bait(Lead(ks))).out == [0]
  {
    var c := Bait(Lead(ks));
    if TrapHere(ks) {
      assert c == [0, 1] && c[1..] == [1];
      assert Leading(c, Baited(ks)[0].p) == 1;
    } else {
      IdleApply(ks[0], c);
      assert Baited(ks)[1..] == Baited(ks[1..]);
      assert c[DropOf(ks[0])..] == Bait(Lead(ks[1..]));
      BaitedPass(ks[1..]);
    }
  }

  /** The list after one source element has been dropped; a `drop_while` that saw it is over. */
  function Tick(ks: seq<Kind>): (r: seq<Kind>)
    requires TrapBefore(ks) && Fore(ks) > 0
    ensures |r| == |ks|
  {
    if DropOf(ks[0]) > 0 then [KDrop(ks[0].n - 1)] + ks[1..]
    else [if ks[0].KDropWhile? then KOther else ks[0]] + Tick(ks[1..])
  }

  lemma IdleAfter(k: Kind)
    ensures DropOf(k) == 0 ==> After(Idle(k), [0]) == Idle(if k.KDropWhile? then KOther else k)
    ensures DropOf(k) > 0 ==> After(Idle(k), [0]) == Idle(KDrop(k.n - 1))
  {
    if k.KDropWhile? {
      LeadingConst([0], Idle(k).p, false);
    }
  }

  lemma TickHere(ks: seq<Kind>)
    requires TrapBefore(ks) && DropOf(ks[0]) > 0
    ensures TrapBefore(Tick(ks)) && Fore(Tick(ks)) == Fore(ks) - 1
    ensures Pass(Trap(ks), [0]) == Chunk(Trap(Tick(ks)), [], false)
  {
    var rest := Trap(ks)[1..];
    IdleApply(ks[0], [0]);
    IdleAfter(ks[0]);
    assert rest == Trap(ks[1..]) && Tick(ks)[1..] == ks[1..];
    PassEmpty(rest);
  }

  lemma {:induction false} TickPass(ks: seq<Kind>)
    requires TrapBefore(ks) && Fore(ks) > 0
    ensures TrapBefore(Tick(ks)) && Fore(Tick(ks)) == Fore(ks) - 1
    ensures Pass(Trap(ks), [0]) == Chunk(Trap(Tick(ks)), [], false)
  {
    if DropOf(ks[0]) > 0 {
      TickHere(ks);
    } else {
      var k, t, rest := ks[0], Tick(ks), Trap(ks)[1..];
      IdleApply(k, [0]);
      IdleAfter(k);
      assert rest == Trap(ks[1..]);
      TickPass(ks[1..]);
      assert t[1..] == Tick(ks[1..]);
      assert Apply(Strip(Idle(k)), [0]) == [0];
      assert Trap(t) == [After(Idle(k), [0])] + Pass(rest, [0]).ops;
    }
  }

  lemma {:induction false} TrapPass(ks: seq<Kind>)
    requires TrapBefore(ks) && Fore(ks) == 0
    ensures Pass(Trap(ks), [0]).stop && Pass(Trap(ks), [0]).out == [0]
  {
    var ops := Trap(ks);
    if ks[0].KFlatMap? {
      assert ops[1..] == Baited(ks[1..]);
      assert FlatMapAll([0], ops[0].g) == Bait(Lead(ks[1..])) + FlatMapAll([], ops[0].g);
      assert Apply(ops[0], [0]) == Bait(Lead(ks[1..]));
      BaitedPass(ks[1..]);
    } else {
      IdleApply(ks[0], [0]);
      assert ops[1..] == Trap(ks[1..]);
      TrapPass(ks[1..]);
    }
  }

  lemma RunStops<T>(ops: seq<Op<T>>, src: seq<T>, limit: Option<int>)
    requires src != [] && Pass(ops, [src[0]]).stop && Pass(ops, [src[0]]).out == [src[0]]
    ensures Run(ops, src, limit, []) == [src[0]]
  {
  }

  lemma RunGoesOn<T>(ops: seq<Op<T>>, next: seq<Op<T>>, src: seq<T>, limit: Option<int>)
    requires src != [] && Pass(ops, [src[0]]) == Chunk(next, [], false)
    requires limit.Some? ==> limit.value >= 1
    ensures Run(ops, src, limit, []) == Run(next, src[1..], limit, [])
  {
    var none: seq<T> := [];
    assert Push(none, none, limit) == none;
  }

  lemma {:induction false} TrapRun(ks: seq<Kind>, n: nat, limit: Option<int>)
    requires TrapBefore(ks) && n == Fore(ks)
    requires limit.Some? ==> limit.value >= 1
    ensures Run(Trap(ks), Rep(0, n + 1), limit, []) == [0]
    decreases n
  {
    var src := Rep(0, n + 1);
    if n == 0 {
      TrapPass(ks);
      RunStops(Trap(ks), src, limit);
    } else {
      TickPass(ks);
      RunGoesOn(Trap(ks), Trap(Tick(ks)), src, limit);
      assert src[1..] == Rep(0, n);
      TrapRun(Tick(ks), n - 1, limit);
    }
  }

  lemma DifferOnTrap(ks: seq<Kind>) returns (ops: seq<Op<int>>, src: seq<int>)
    requires LastTakeOf(ks).Some? ==> LastTakeOf(ks).value >= 1
    requires !SafeShape(ks, false)
    ensures Shape(ops) == ks && Fused(ops, src, None) != Eager(ops, src)
  {
    UnsafeShapeTraps(ks, false);
    ops, src := Trap(ks), Rep(0, Fore(ks) + 1);
    TrapShape(ks);
    ShapeFacts(ops);
    TrapRun(ks, Fore(ks), LastTake(ops));
    TrapEager(ks, src);
    assert 0 in [0];
  }

  /** An unfaithful shape has blocks and a source on which the code differs from the eager result. */
  lemma UnfaithfulDiffers(ks: seq<Kind>) returns (ops: seq<Op<int>>, src: seq<int>)
    requires !Faithful(ks)
    ensures Shape(ops) == ks && Fused(ops, src, None) != Eager(ops, src)
  {
    var last := LastTakeOf(ks);
    if last.Some? && last.value <= 0 {
      ops, src := DifferAtZero(ks);
    } else if !SafeShape(ks, false) {
      ops, src := DifferOnTrap(ks);
    } else {
      ops, src := DifferOnBudget(ks);
    }
  }

  /** A shape is faithful exactly when no blocks and no source tell the one pass from the eager reading. */
  lemma FaithfulIff(ks: seq<Kind>)
    ensures Faithful(ks) <==>
            forall ops: seq<Op<int>>, src :: Shape(ops) == ks ==> Fused(ops, src, None) == Eager(ops, src)
  {
    if Faithful(ks) {
      forall ops: seq<Op<int>>, src | Shape(ops) == ks
        ensures Fused(ops, src, None) == Eager(ops, src)
      {
        FaithfulAgrees(ops, src);
      }
    } else {
      var ops, src := UnfaithfulDiffers(ks);
    }
  }

  // ---------------------------------------------------------------------------------------------
  // The interpreter itself
  // ---------------------------------------------------------------------------------------------

  /** What the counters and flags of the loop have left of the operation at index `i`. */
  function LeftOf<T>(op: Op<T>, i: nat, dropCounts: map<nat, int>, dropWhileDone: map<nat, bool>): Op<T> {
    if op.Drop? && i in dropCounts then Drop(op.n - dropCounts[i])
    else if op.DropWhile? && i in dropWhileDone && dropWhileDone[i] then Other
    else op
  }

  function Left<T>(ops: seq<Op<T>>, dropCounts: map<nat, int>, dropWhileDone: map<nat, bool>): (r: seq<Op<T>>)
    ensures |r| == |ops|
  {
    seq(|ops|, i requires 0 <= i < |ops| => LeftOf(ops[i], i, dropCounts, dropWhileDone))
  }

  lemma {:induction false} LastTakeSnoc<T>(ops: seq<Op<T>>, op: Op<T>)
    ensures LastTake(ops + [op]) == if op.Take? then Some(op.n) else LastTake(ops)
  {
    if ops == [] {
      assert ops + [op] == [op];
    } else {
      assert (ops + [op])[1..] == ops[1..] + [op];
      LastTakeSnoc(ops[1..], op);
    }
  }

  method TakeWhileStep<T>(p: T -> bool, vals: seq<T>) returns (newVals: seq<T>, stop: bool)
    ensures newVals == Apply(TakeWhile(p), vals) && stop == Stops(TakeWhile(p), vals)
  {
    newVals, stop := [], false;
    for i := 0 to |vals|
      invariant newVals == vals[..i] && !stop
      invariant Leading(vals, p) == i + Leading(vals[i..], p)
    {
      if p(vals[i]) {
        newVals := newVals + [vals[i]];
      } else {
        stop := true;
        break;
      }
    }
  }

  method DropStep<T>(n: int, count: int, vals: seq<T>) returns (newVals: seq<T>, count': int)
    ensures newVals == Apply(Drop(n - count), vals)
    ensures After(Drop(n - count), vals) == Drop(n - count')
  {
    newVals, count' := [], count;
    for i := 0 to |vals|
      invariant count' == count + Clamp(n - count, i)
      invariant newVals == vals[Clamp(n - count, i)..i]
    {
      if count' < n {
        count' := count' + 1;
      } else {
        newVals := newVals + [vals[i]];
      }
    }
  }

  method DropWhileStep<T>(p: T -> bool, done: bool, vals: seq<T>) returns (newVals: seq<T>, done': bool)
    ensures newVals == Apply(if done then Other else DropWhile(p), vals)
    ensures done' == (done || After(DropWhile(p), vals) == Other)
  {
    newVals, done' := [], done;
    ghost var m := if done then 0 else Leading(vals, p);
    for i := 0 to |vals|
      invariant done' == (done || m < i)
      invariant newVals == vals[if i < m then i else m..i]
      invariant !done' ==> Leading(vals, p) == i + Leading(vals[i..], p)
    {
      if !done' && p(vals[i]) {
      } else {
        done' := true;
        newVals := newVals + [vals[i]];
      }
    }
  }

  /** The counters and flags agree, except possibly at index `idx`. */
  ghost predicate Elsewhere(idx: nat, dc: map<nat, int>, dw: map<nat, bool>, dc': map<nat, int>, dw': map<nat, bool>) {
    && dc.Keys == dc'.Keys
    && dw.Keys == dw'.Keys
    && (forall i :: i in dc && i != idx ==> dc'[i] == dc[i])
    && (forall i :: i in dw && i != idx ==> dw'[i] == dw[i])
  }

  lemma LeftElsewhere<T>(ops: seq<Op<T>>, idx: nat, dc: map<nat, int>, dw: map<nat, bool>,
                         dc': map<nat, int>, dw': map<nat, bool>)
    requires Elsewhere(idx, dc, dw, dc', dw')
    ensures forall i :: 0 <= i < |ops| && i != idx ==> Left(ops, dc', dw')[i] == Left(ops, dc, dw)[i]
    ensures Tracked(ops, dc, dw) ==> Tracked(ops, dc', dw')
  {
  }

  /** `case op` of the inner loop, on the values that have reached the operation at index `idx`. */
  method Step<T>(op: Op<T>, idx: nat, vals: seq<T>, dropCounts: map<nat, int>, dropWhileDone: map<nat, bool>)
    returns (vals': seq<T>, skip: bool, stop: bool, dropCounts': map<nat, int>, dropWhileDone': map<nat, bool>)
    requires op.Drop? ==> idx in dropCounts
    requires op.DropWhile? ==> idx in dropWhileDone
    ensures
      var left := LeftOf(op, idx, dropCounts, dropWhileDone);
      && stop == Stops(left, vals)
      && vals' == Apply(Strip(left), vals)
      && LeftOf(op, idx, dropCounts', dropWhileDone') == if stop then left else After(left, vals)
    ensures skip ==> vals' == []
    ensures Elsewhere(idx, dropCounts, dropWhileDone, dropCounts', dropWhileDone')
  {
    vals', skip, stop, dropCounts', dropWhileDone' := vals, false, false, dropCounts, dropWhileDone;
    match op
    case Select(p) =>
      vals' := Filter(vals, p);
      skip := |vals'| == 0;
    case Reject(p) =>
      vals' := Filter(vals, Not(p));
      skip := |vals'| == 0;
    case Map(f) =>
      vals' := MapAll(vals, f);
    case FlatMap(g) =>
      vals' := FlatMapAll(vals, g);
    case TakeWhile(p) =>
      vals', stop := TakeWhileStep(p, vals);
      skip := |vals'| == 0;
    case Drop(n) =>
      var count: int;
      vals', count := DropStep(n, dropCounts[idx], vals);
      dropCounts' := dropCounts[idx := count];
      skip := |vals'| == 0;
    case DropWhile(p) =>
      var done: bool;
      vals', done := DropWhileStep(p, dropWhileDone[idx], vals);
      dropWhileDone' := dropWhileDone[idx := done];
      assert LeftOf(op, idx, dropCounts', dropWhileDone') == if done then Other else op;
      skip := |vals'| == 0;
    case Take(_) =>
    case Other =>
  }

  ghost predicate Tracked<T>(ops: seq<Op<T>>, dropCounts: map<nat, int>, dropWhileDone: map<nat, bool>) {
    forall i :: 0 <= i < |ops| ==>
      (ops[i].Drop? ==> i in dropCounts) && (ops[i].DropWhile? ==> i in dropWhileDone)
  }

  /** Where a trip stands: `now` is what is left of the whole list, and `vals` is about to reach index `idx`. */
  ghost predicate Underway<T>(p: Chunk<T>, start: seq<Op<T>>, now: seq<Op<T>>, idx: nat, vals: seq<T>, stop: bool)
    requires idx <= |start|
  {
    && |now| == |start|
    && now[idx..] == start[idx..]
    && var rest := Pass(start[idx..], vals);
       p == if stop then Chunk(now, vals, true) else Chunk(now[..idx] + rest.ops, rest.out, rest.stop)
  }

  lemma UnderwayStep<T>(p: Chunk<T>, start: seq<Op<T>>, before: seq<Op<T>>, now: seq<Op<T>>,
                        idx: nat, reached: seq<T>, vals: seq<T>, stop: bool)
    requires idx < |start| && Underway(p, start, before, idx, reached, false)
    requires |now| == |start| && forall i :: 0 <= i < |now| && i != idx ==> now[i] == before[i]
    requires stop == Stops(before[idx], reached) && vals == Apply(Strip(before[idx]), reached)
    requires now[idx] == if stop then before[idx] else After(before[idx], reached)
    ensures Underway(p, start, now, idx + 1, vals, stop)
  {
    var left, rest := start[idx..], Pass(start[idx..], reached);
    assert left[0] == before[idx] && left[1..] == start[idx + 1..];
    assert now[..idx] == before[..idx] && now[idx + 1..] == before[idx + 1..] == before[idx..][1..];
    if stop {
      assert now == before == before[..idx] + left;
    } else {
      assert rest.ops == [now[idx]] + Pass(start[idx + 1..], vals).ops;
      assert before[..idx] + rest.ops == now[..idx + 1] + Pass(start[idx + 1..], vals).ops;
    }
  }

  lemma UnderwayEmpty<T>(p: Chunk<T>, start: seq<Op<T>>, now: seq<Op<T>>, idx: nat)
    requires idx <= |start| && Underway(p, start, now, idx, [], false)
    ensures p == Chunk(now, [], false)
  {
    PassEmpty(start[idx..]);
    assert now[..idx] + start[idx..] == now;
  }

  lemma UnderwayDone<T>(p: Chunk<T>, start: seq<Op<T>>, now: seq<Op<T>>, vals: seq<T>, stop: bool)
    requires Underway(p, start, now, |start|, vals, stop)
    ensures p == Chunk(now, vals, stop)
  {
    assert start[|start|..] == [] && now[..|start|] + [] == now;
  }

  /** One trip of a source element through the list: `vals = [x]` and the loop over `@ops`. */
  method Trip<T>(ops: seq<Op<T>>, x: T, dropCounts: map<nat, int>, dropWhileDone: map<nat, bool>)
    returns (vals: seq<T>, skip: bool, stop: bool, dropCounts': map<nat, int>, dropWhileDone': map<nat, bool>)
    requires Tracked(ops, dropCounts, dropWhileDone)
    ensures Pass(Left(ops, dropCounts, dropWhileDone), [x]) == Chunk(Left(ops, dropCounts', dropWhileDone'), vals, stop)
    ensures skip ==> vals == []
    ensures Tracked(ops, dropCounts', dropWhileDone')
  {
    vals, skip, stop, dropCounts', dropWhileDone' := [x], false, false, dropCounts, dropWhileDone;
    ghost var start := Left(ops, dropCounts, dropWhileDone);
    ghost var p := Pass(start, [x]);
    var idx := 0;
    while idx < |ops|
      invariant 0 <= idx <= |ops|
      invariant Tracked(ops, dropCounts', dropWhileDone')
      invariant skip ==> vals == []
      invariant Underway(p, start, Left(ops, dropCounts', dropWhileDone'), idx, vals, stop)
      invariant p == Pass(start, [x])
    {
      ghost var before, reached := Left(ops, dropCounts', dropWhileDone'), vals;
      if skip || stop {
        if !stop {
          UnderwayEmpty(p, start, before, idx);
        }
        break;
      }
      ghost var dc, dw := dropCounts', dropWhileDone';
      vals, skip, stop, dropCounts', dropWhileDone' := Step(ops[idx], idx, vals, dropCounts', dropWhileDone');
      LeftElsewhere(ops, idx, dc, dw, dropCounts', dropWhileDone');
      UnderwayStep(p, start, before, Left(ops, dropCounts', dropWhileDone'), idx, reached, vals, stop);
      idx := idx + 1;
    }
    if idx == |ops| {
      UnderwayDone(p, start, Left(ops, dropCounts', dropWhileDone'), vals, stop);
    }
  }

  method PushUpTo<T>(acc: seq<T>, vals: seq<T>, limit: Option<int>) returns (result: seq<T>)
    ensures result == Push(acc, vals, limit)
  {
    result := acc;
    for i := 0 to |vals|
      invariant result == acc + vals[..i]
      invariant i > 0 ==> !Full(result, limit)
    {
      result := result + [vals[i]];
      if Full(result, limit) {
        break;
      }
    }
  }

  /** `limit` from the cap and the last `take`. */
  method LimitFor<T>(ops: seq<Op<T>>, cap: Option<int>) returns (limit: Option<int>)
    ensures limit == Tighter(cap, LastTake(ops))
    ensures limit.None? <==> cap.None? && LastTake(ops).None?
    ensures limit.Some? ==> (limit == cap || limit == LastTake(ops)) &&
                            (cap.Some? ==> limit.value <= cap.value) &&
                            (LastTake(ops).Some? ==> limit.value <= LastTake(ops).value)
  {
    var takeLimit: Option<int> := None;
    for i := 0 to |ops|
      invariant takeLimit == LastTake(ops[..i])
    {
      assert ops[..i + 1] == ops[..i] + [ops[i]];
      LastTakeSnoc(ops[..i], ops[i]);
      if ops[i].Take? {
        takeLimit := Some(ops[i].n);
      }
    }
    assert ops[..|ops|] == ops;
    limit := Tighter(cap, takeLimit);
  }

  method FreshCounters<T>(ops: seq<Op<T>>) returns (dropCounts: map<nat, int>, dropWhileDone: map<nat, bool>)
    ensures Tracked(ops, dropCounts, dropWhileDone) && Left(ops, dropCounts, dropWhileDone) == ops
  {
    dropCounts, dropWhileDone := map[], map[];
    for i := 0 to |ops|
      invariant forall j :: 0 <= j < i && ops[j].Drop? ==> j in dropCounts
      invariant forall j :: j in dropCounts ==> dropCounts[j] == 0
    {
      if ops[i].Drop? {
        dropCounts := dropCounts[i := 0];
      }
    }
    for i := 0 to |ops|
      invariant forall j :: 0 <= j < i && ops[j].DropWhile? ==> j in dropWhileDone
      invariant forall j :: j in dropWhileDone ==> !dropWhileDone[j]
    {
      if ops[i].DropWhile? {
        dropWhileDone := dropWhileDone[i := false];
      }
    }
  }

  lemma RunUnfold<T>(ops: seq<Op<T>>, src: seq<T>, n: nat, limit: Option<int>, acc: seq<T>, c: Chunk<T>, acc': seq<T>)
    requires n < |src| && c == Pass(ops, [src[n]]) && acc' == Push(acc, c.out, limit)
    ensures Run(ops, src[n..], limit, acc) ==
            if c.stop || Full(acc', limit) then acc' else Run(c.ops, src[n + 1..], limit, acc')
  {
    assert src[n..][0] == src[n] && src[n..][1..] == src[n + 1..];
  }

  /** `_collect(cap)`. */
  method Collect<T>(ops: seq<Op<T>>, src: seq<T>, cap: Option<int>) returns (result: seq<T>)
    ensures result == Fused(ops, src, cap)
  {
    result := [];
    var limit := LimitFor(ops, cap);
    var dropCounts, dropWhileDone := FreshCounters(ops);
    ghost var answer := Run(ops, src, limit, []);
    assert src[0..] == src;
    var stop := false;
    var n := 0;
    while n < |src|
      invariant 0 <= n <= |src|
      invariant Tracked(ops, dropCounts, dropWhileDone)
      invariant answer == if stop then result else Run(Left(ops, dropCounts, dropWhileDone), src[n..], limit, result)
    {
      if stop {
        break;
      }
      ghost var left, before := Left(ops, dropCounts, dropWhileDone), result;
      var vals, skip;
      vals, skip, stop, dropCounts, dropWhileDone := Trip(ops, src[n], dropCounts, dropWhileDone);
      if !skip {
        result := PushUpTo(result, vals, limit);
      }
      assert result == Push(before, vals, limit);
      RunUnfold(left, src, n, limit, before, Chunk(Left(ops, dropCounts, dropWhileDone), vals, stop), result);
      if Full(result, limit) {
        break;
      }
      n := n + 1;
    }
  }
}
