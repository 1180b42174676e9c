/**
  * What each construct of `ControlFlow` does, as rules about its parts, and small programs worked out.
  * The rules hold in both readings unless they name one.
  */
module Programs {
  import opened Options
  import opened ControlFlow

  // ---------------------------------------------------------------------------------------------
  // Conditions, sequences and jumps
  // ---------------------------------------------------------------------------------------------

  /** Only nil counts as false; `unless` takes the other branch. */
  lemma ConditionRule<S>(rd: Reading, fuel: nat, cond: Node<S>, a: Node<S>, b: Node<S>, sc: Scope, w: World<S>,
                         v: Value, w1: World<S>)
    requires Run(rd, fuel, cond, sc, w) == Some(Out(Done(v), w1))
    ensures Run(rd, fuel, If(cond, false, a, Some(b)), sc, w) == Run(rd, fuel, if v == Nil then b else a, sc, w1)
    ensures Run(rd, fuel, If(cond, true, a, Some(b)), sc, w) == Run(rd, fuel, if v == Nil then a else b, sc, w1)
    ensures Run(rd, fuel, If(cond, false, a, None), sc, w) ==
              if v == Nil then Some(Out(Done(Nil), w1)) else Run(rd, fuel, a, sc, w1)
    ensures Run(rd, fuel, If(cond, true, a, None), sc, w) ==
              if v == Nil then Run(rd, fuel, a, sc, w1) else Some(Out(Done(Nil), w1))
  {
  }

  /** A signal in a condition or in the value of a jump goes on as it is. */
  lemma SignalPasses<S>(rd: Reading, fuel: nat, part: Node<S>, unless: bool, a: Node<S>, b: Option<Node<S>>,
                        sc: Scope, w: World<S>, out: Out<S>)
    requires Run(rd, fuel, part, sc, w) == Some(out) && !out.o.Done?
    ensures Run(rd, fuel, If(part, unless, a, b), sc, w) == Some(out)
    ensures Run(rd, fuel, While(part, unless, false, a), sc, w) == Some(out)
    ensures Run(rd, fuel, Break(part), sc, w) == Some(out)
    ensures Run(rd, fuel, Next(part), sc, w) == Some(out)
    ensures Run(rd, fuel, Return(part), sc, w) == Some(out)
  {
    var n := While(part, unless, false, a);
    assert TestRound(rd, fuel, n, sc, w) == End(out);
    assert LoopRound(rd, fuel, n, sc, w) == End(out);
    assert RunLoop(rd, fuel, n, sc, w) == Some(out);
  }

  /** What has no parts: an action reads `$!`, and `raise` alone raises what is being rescued. */
  lemma LeafRule<S>(rd: Reading, fuel: nat, f: (S, Option<Exn>) -> (S, Value), make: S -> Exn, e: Exn,
                    rescuing: Option<Exn>, s: S, trace: seq<Event>)
    ensures Run(rd, fuel, Act(f), Scope(rescuing, Some(e)), World(s, trace)) ==
              Some(Out(Done(f(s, Some(e)).1), World(f(s, Some(e)).0, trace)))
    ensures Run(rd, fuel, Raise(make), Scope(rescuing, None), World(s, trace)) ==
              Some(Out(Raised(make(s)), World(s, trace)))
    ensures Run(rd, fuel, Reraise, Scope(Some(e), None), World(s, trace)) == Some(Out(Raised(e), World(s, trace)))
  {
  }

  /** A jump carries its value. */
  lemma JumpRule<S>(rd: Reading, fuel: nat, value: Node<S>, sc: Scope, w: World<S>, v: Value, w1: World<S>)
    requires Run(rd, fuel, value, sc, w) == Some(Out(Done(v), w1))
    ensures Run(rd, fuel, Break(value), sc, w) == Some(Out(Broke(v), w1))
    ensures Run(rd, fuel, Next(value), sc, w) == Some(Out(Nexted(v), w1))
    ensures Run(rd, fuel, Return(value), sc, w) == Some(Out(Returned(v), w1))
  {
  }

  lemma {:induction false} SequenceFrom<S>(rd: Reading, fuel: nat, xs: seq<Node<S>>, ys: seq<Node<S>>, sc: Scope,
                                          w: World<S>, last: Value)
    ensures
      var r := RunAll(rd, fuel, xs, sc, w, last);
      RunAll(rd, fuel, xs + ys, sc, w, last) ==
        if r.Some? && r.value.o.Done? then RunAll(rd, fuel, ys, sc, r.value.w, r.value.o.v) else r
    decreases |xs|
  {
    if xs == [] {
      assert xs + ys == ys;
    } else {
      assert (xs + ys)[1..] == xs[1..] + ys;
      var r := Run(rd, fuel, xs[0], sc, w);
      if r.Some? && r.value.o.Done? {
        SequenceFrom(rd, fuel, xs[1..], ys, sc, r.value.w, r.value.o.v);
      }
    }
  }

  lemma LastDoesNotMatter<S>(rd: Reading, fuel: nat, ys: seq<Node<S>>, sc: Scope, w: World<S>, a: Value, b: Value)
    requires ys != []
    ensures RunAll(rd, fuel, ys, sc, w, a) == RunAll(rd, fuel, ys, sc, w, b)
  {
  }

  lemma OnePart<S>(rd: Reading, fuel: nat, n: Node<S>, sc: Scope, w: World<S>)
    ensures Run(rd, fuel, Body([n]), sc, w) == Run(rd, fuel, n, sc, w)
  {
    var r := Run(rd, fuel, n, sc, w);
    assert Run(rd, fuel, Body([n]), sc, w) == RunAll(rd, fuel, [n], sc, w, Nil);
    if r.Some? && r.value.o.Done? {
      var rest := [n][1..];
      assert RunAll(rd, fuel, [n], sc, w, Nil) == RunAll(rd, fuel, rest, sc, r.value.w, r.value.o.v);
      assert rest == [] && r.value == Out(Done(r.value.o.v), r.value.w);
    }
  }

  /** A sequence runs its parts in turn, stops at a signal and yields the last value. */
  lemma SequenceRule<S>(rd: Reading, fuel: nat, xs: seq<Node<S>>, ys: seq<Node<S>>, n: Node<S>, sc: Scope, w: World<S>)
    ensures Run(rd, fuel, Body([]), sc, w) == Some(Out(Done(Nil), w))
    ensures Run(rd, fuel, Body([n]), sc, w) == Run(rd, fuel, n, sc, w)
    ensures ys != [] ==>
              var r := Run(rd, fuel, Body(xs), sc, w);
              Run(rd, fuel, Body(xs + ys), sc, w) ==
                if r.Some? && r.value.o.Done? then Run(rd, fuel, Body(ys), sc, r.value.w) else r
  {
    var none: seq<Node<S>> := [];
    assert Run(rd, fuel, Body(none), sc, w) == RunAll(rd, fuel, none, sc, w, Nil);
    OnePart(rd, fuel, n, sc, w);
    SequenceFrom(rd, fuel, xs, ys, sc, w, Nil);
    var r := Run(rd, fuel, Body(xs), sc, w);
    if ys != [] && r.Some? && r.value.o.Done? {
      LastDoesNotMatter(rd, fuel, ys, sc, r.value.w, r.value.o.v, Nil);
    }
  }

  // ---------------------------------------------------------------------------------------------
  // Loops
  // ---------------------------------------------------------------------------------------------

  /** A loop that tests first ends when its condition says so, without running the body. */
  lemma LoopStops<S>(rd: Reading, fuel: nat, cond: Node<S>, until: bool, body: Node<S>, sc: Scope, w: World<S>,
                     v: Value, w1: World<S>)
    requires Run(rd, fuel, cond, sc, w) == Some(Out(Done(v), w1)) && (v == Nil <==> !until)
    ensures Run(rd, fuel, While(cond, until, false, body), sc, w) == Some(Out(Done(Nil), w1))
  {
    var n := While(cond, until, false, body);
    assert TestRound(rd, fuel, n, sc, w) == End(Out(Done(Nil), w1));
    assert LoopRound(rd, fuel, n, sc, w) == End(Out(Done(Nil), w1));
  }

  /** Otherwise the body runs: `break` ends the loop with its value, `return` and exceptions leave it. */
  lemma LoopRuns<S>(rd: Reading, fuel: nat, cond: Node<S>, until: bool, body: Node<S>, sc: Scope, w: World<S>,
                    v: Value, w1: World<S>, b: Out<S>)
    requires Run(rd, fuel, cond, sc, w) == Some(Out(Done(v), w1)) && (v == Nil <==> until)
    requires Run(rd, fuel, body, sc, w1) == Some(b)
    ensures
      var r := Run(rd, fuel, While(cond, until, false, body), sc, w);
      && (b.o.Broke? ==> r == Some(Out(Done(b.o.v), b.w)))
      && (b.o.Returned? || b.o.Raised? ==> r == Some(b))
      && (b.o.Done? || b.o.Nexted? ==>
            r == if fuel == 0 then None else Run(rd, fuel - 1, While(cond, until, false, body), sc, b.w))
  {
    var n := While(cond, until, false, body);
    assert TestRound(rd, fuel, n, sc, w) == Again(w1);
    assert LoopRound(rd, fuel, n, sc, w) == BodyRound(rd, fuel, n, sc, w1);
    assert b == Out(b.o, b.w);
    assert Run(rd, fuel, n, sc, w) == RunLoop(rd, fuel, n, sc, w);
  }

  /** A loop that tests last runs its body before it looks at the condition. */
  lemma PostLoopRuns<S>(rd: Reading, fuel: nat, cond: Node<S>, until: bool, body: Node<S>, sc: Scope, w: World<S>,
                        b: Out<S>, v: Value, w2: World<S>)
    requires Run(rd, fuel, body, sc, w) == Some(b)
    requires Run(rd, fuel, cond, sc, b.w) == Some(Out(Done(v), w2))
    ensures
      var r := Run(rd, fuel, While(cond, until, true, body), sc, w);
      && (b.o.Broke? ==> r == Some(Out(Done(b.o.v), b.w)))
      && (b.o.Returned? || b.o.Raised? ==> r == Some(b))
      && (b.o.Done? || b.o.Nexted? ==>
            r == if v == Nil <==> !until then Some(Out(Done(Nil), w2))
                 else if fuel == 0 then None else Run(rd, fuel - 1, While(cond, until, true, body), sc, w2))
  {
    var n := While(cond, until, true, body);
    assert b == Out(b.o, b.w);
    assert LoopRound(rd, fuel, n, sc, w) == BodyRound(rd, fuel, n, sc, w);
    if b.o.Done? || b.o.Nexted? {
      assert BodyRound(rd, fuel, n, sc, w) == TestRound(rd, fuel, n, sc, b.w);
    }
    assert Run(rd, fuel, n, sc, w) == RunLoop(rd, fuel, n, sc, w);
  }

  // ---------------------------------------------------------------------------------------------
  // begin, rescue, ensure
  // ---------------------------------------------------------------------------------------------

  /**
    * An ensure body that completes leaves the outcome alone, be it a value, an exception or a jump; one that
    * does not takes its place.
    */
  lemma EnsureRule<S>(rd: Reading, fuel: nat, n: Node<S>, sc: Scope, w: World<S>, inner: Out<S>, e: Out<S>)
    requires n.Begin? && n.ensuring.Some?
    requires Run(rd, fuel, n.(ensuring := None), sc, w.Note(Entered(n.id))) == Some(inner)
    requires Run(rd, fuel, n.ensuring.value, sc, inner.w.Note(Ensuring(n.id))) == Some(e)
    ensures e.o.Done? ==> Run(rd, fuel, n, sc, w) == Some(Out(inner.o, e.w))
    ensures !e.o.Done? ==> Run(rd, fuel, n, sc, w) == Some(e)
  {
    AttemptsIgnoreEnsure(rd, fuel, n, sc, w.Note(Entered(n.id)), false);
  }

  /** A body that does not raise is not touched by the clauses. */
  lemma NoExceptionRule<S>(rd: Reading, fuel: nat, n: Node<S>, sc: Scope, w: World<S>, b: Out<S>)
    requires n.Begin? && n.orElse.None? && n.ensuring.None?
    requires Run(rd, fuel, n.body, sc, w) == Some(b) && !b.o.Raised?
    ensures Run(rd, fuel, n, sc, w) == Some(b)
  {
    assert Attempt(rd, fuel, n, sc, w, false) == End(b);
  }

  /** The class of the exception or one of its superclasses is named, or the clause names no class at all. */
  predicate Named<S>(clause: Rescue<S>, e: Exn) {
    clause.classes == [] ||
    exists i :: 0 <= i < |clause.classes| &&
                (clause.classes[i] == Known(e.cls) ||
                 exists k :: 0 <= k < |e.ancestors| && clause.classes[i] == Known(e.ancestors[k]))
  }

  lemma NamedIsCaught<S>(clause: Rescue<S>, e: Exn)
    ensures Named(clause, e) <==> Catches(clause, e)
  {
    if Catches(clause, e) && clause.classes != [] {
      var i :| 0 <= i < |clause.classes| && clause.classes[i].Known? && IsA(e, clause.classes[i].name);
      assert clause.classes[i] == Known(clause.classes[i].name);
      if clause.classes[i].name != e.cls {
        var k :| 0 <= k < |e.ancestors| && e.ancestors[k] == clause.classes[i].name;
      }
    }
  }

  /** The first clause that names the exception runs, with the exception bound, as `$!` and for `raise`. */
  lemma RescueRule<S>(fuel: nat, n: Node<S>, sc: Scope, w: World<S>, e: Exn, w1: World<S>, i: nat, r: Out<S>)
    requires n.Begin? && n.ensuring.None? && Run(Code, fuel, n.body, sc, w) == Some(Out(Raised(e), w1))
    requires i < |n.rescues| && Named(n.rescues[i], e) && forall j :: 0 <= j < i ==> !Named(n.rescues[j], e)
    requires
      var clause := n.rescues[i];
      Run(Code, fuel, clause.body, Scope(Some(e), Some(e)), World(clause.bind(w1.s, e), w1.trace)) == Some(r)
    requires !r.o.Retried?
    ensures Run(Code, fuel, n, sc, w) == Some(r)
  {
    NamedIsCaught(n.rescues[i], e);
    forall j | 0 <= j < i
      ensures !Catches(n.rescues[j], e)
    {
      NamedIsCaught(n.rescues[j], e);
    }
    assert FirstCatching(n.rescues, e) == i;
    assert RescueRound(Code, fuel, n.rescues[i], e, w1) == End(r);
    assert Attempt(Code, fuel, n, sc, w, false) == End(r);
  }

  lemma {:induction false} FlagNeedsElse<S>(fuel: nat, n: Node<S>, sc: Scope, w: World<S>)
    requires n.Begin? && n.orElse.None?
    ensures RunAttempts(Code, fuel, n, sc, w, true) == RunAttempts(Code, fuel, n, sc, w, false)
    decreases fuel
  {
    var round := Attempt(Code, fuel, n, sc, w, false);
    assert Attempt(Code, fuel, n, sc, w, true) == round;
    if round.Again? && fuel > 0 {
      FlagNeedsElse(fuel - 1, n, sc, round.w);
    }
  }

  /** A clause that ends in `retry` starts the same `begin` again, from the state the clause has left. */
  lemma RetryRule<S>(fuel: nat, n: Node<S>, sc: Scope, w: World<S>, e: Exn, w1: World<S>, i: nat, w2: World<S>)
    requires n.Begin? && n.orElse.None? && n.ensuring.None?
    requires Run(Code, fuel, n.body, sc, w) == Some(Out(Raised(e), w1))
    requires i < |n.rescues| && Named(n.rescues[i], e) && forall j :: 0 <= j < i ==> !Named(n.rescues[j], e)
    requires
      var clause := n.rescues[i];
      Run(Code, fuel, clause.body, Scope(Some(e), Some(e)), World(clause.bind(w1.s, e), w1.trace)) ==
        Some(Out(Retried, w2))
    ensures Run(Code, fuel, n, sc, w) == if fuel == 0 then None else Run(Code, fuel - 1, n, sc, w2)
  {
    NamedIsCaught(n.rescues[i], e);
    forall j | 0 <= j < i
      ensures !Catches(n.rescues[j], e)
    {
      NamedIsCaught(n.rescues[j], e);
    }
    assert FirstCatching(n.rescues, e) == i;
    assert RescueRound(Code, fuel, n.rescues[i], e, w1) == Again(w2);
    assert Attempt(Code, fuel, n, sc, w, false) == Again(w2);
    if fuel > 0 {
      FlagNeedsElse(fuel - 1, n, sc, w2);
    }
  }

  /** After a body that completes, the else body runs, its exceptions passing the clauses by. */
  lemma ElseRule<S>(rd: Reading, fuel: nat, n: Node<S>, sc: Scope, w: World<S>, v: Value, w1: World<S>)
    requires n.Begin? && n.orElse.Some? && n.ensuring.None?
    requires Run(rd, fuel, n.body, sc, w) == Some(Out(Done(v), w1))
    ensures Run(rd, fuel, n, sc, w) == Run(rd, fuel, n.orElse.value, sc, w1)
  {
    var r := Run(rd, fuel, n.orElse.value, sc, w1);
    assert Attempt(rd, fuel, n, sc, w, false) == if r.None? then Stuck else End(r.value);
  }

  /** After a body that jumps, it runs in the code alone. */
  lemma JumpThenElse<S>(fuel: nat, n: Node<S>, sc: Scope, w: World<S>, b: Out<S>, b': Out<S>)
    requires n.Begin? && n.orElse.Some? && n.ensuring.None?
    requires Run(Code, fuel, n.body, sc, w) == Some(b) && !b.o.Done? && !b.o.Raised?
    requires Run(Ruby, fuel, n.body, sc, w) == Some(b') && !b'.o.Done? && !b'.o.Raised?
    ensures Run(Code, fuel, n, sc, w) == Run(Code, fuel, n.orElse.value, sc, b.w)
    ensures Run(Ruby, fuel, n, sc, w) == Some(b')
  {
    var r := Run(Code, fuel, n.orElse.value, sc, b.w);
    assert Attempt(Code, fuel, n, sc, w, false) == if r.None? then Stuck else End(r.value);
    assert Attempt(Ruby, fuel, n, sc, w, false) == End(b');
  }

  /** An exception that no clause names goes on. */
  lemma UncaughtRule<S>(fuel: nat, n: Node<S>, sc: Scope, w: World<S>, e: Exn, w1: World<S>)
    requires n.Begin? && n.ensuring.None? && Run(Code, fuel, n.body, sc, w) == Some(Out(Raised(e), w1))
    requires forall j :: 0 <= j < |n.rescues| ==> !Named(n.rescues[j], e)
    ensures Run(Code, fuel, n, sc, w) == Some(Out(Raised(e), w1))
  {
    forall j | 0 <= j < |n.rescues|
      ensures !Catches(n.rescues[j], e)
    {
      NamedIsCaught(n.rescues[j], e);
    }
    assert FirstCatching(n.rescues, e) == |n.rescues|;
    assert Attempt(Code, fuel, n, sc, w, false) == End(Out(Raised(e), w1));
  }

  // ---------------------------------------------------------------------------------------------
  // Programs
  // ---------------------------------------------------------------------------------------------

  function Give<S>(v: Value): Node<S> {
    Act((s: S, bang) => (s, v))
  }

  /** `begin; raise; ensure; 1; end` */
  function RaiseThenEnsure(): Node<int> {
    Begin(0, Reraise, [], None, Some(Give(Data(1))))
  }

  /** The exception goes on through an ensure body that completes. */
  method EnsureLetsItPass() returns (r: Signal, e: Option<Exn>, message: string)
    ensures r == Exception && e == Some(PLAIN) && message == "RuntimeError: RuntimeError"
  {
    var n := RaiseThenEnsure();
    var ev := new Evaluator(0);
    var finished;
    ghost var w := PassesEnsure(n);
    finished, r := ev.Eval(0, n);
    e, message := ev.currentException, ev.exceptionMsg;
    PlainMessage();
  }

  lemma PassesEnsure(n: Node<int>) returns (w2: World<int>)
    requires n == RaiseThenEnsure()
    ensures Run(Code, 0, n, Scope(None, None), World(0, [])) == Some(Out(Raised(PLAIN), w2))
  {
    var sc, w := Scope(None, None), World(0, []);
    var w1 := w.Note(Entered(0));
    w2 := w1.Note(Ensuring(0));
    assert Run(Code, 0, n.body, sc, w1) == Some(Out(Raised(PLAIN), w1));
    UncaughtRule(0, n.(ensuring := None), sc, w1, PLAIN, w1);
    assert Run(Code, 0, n.ensuring.value, sc, w2) == Some(Out(Done(Data(1)), w2));
    EnsureRule(Code, 0, n, sc, w, Out(Raised(PLAIN), w1), Out(Done(Data(1)), w2));
  }

  lemma PlainMessage()
    ensures Summary(PLAIN) == "RuntimeError: RuntimeError"
  {
  }

  /** `begin; raise; rescue StandardError; 1; end`: the plain exception is a RuntimeError. */
  method AncestorCatches() returns (r: Signal)
    ensures r == Plain(Data(1))
  {
    var n := Begin(0, Reraise, [Rescue([Known("StandardError")], (s: int, e) => s, Give(Data(1)))], None, None);
    var ev := new Evaluator(0);
    var finished;
    ghost var sc, w := Scope(None, None), World(0, []);
    assert Run(Code, 0, n.body, sc, w) == Some(Out(Raised(PLAIN), w));
    assert PLAIN.ancestors[0] == "StandardError" && n.rescues[0].classes[0] == Known(PLAIN.ancestors[0]);
    assert Run(Code, 0, n.rescues[0].body, Scope(Some(PLAIN), Some(PLAIN)), w) == Some(Out(Done(Data(1)), w));
    RescueRule(0, n, sc, w, PLAIN, w, 0, Out(Done(Data(1)), w));
    finished, r := ev.Eval(0, n);
  }

  /** `begin; BODY; rescue; raise; end` raises what BODY raised. */
  lemma RaiseAgain<S>(fuel: nat, n: Node<S>, sc: Scope, w: World<S>, e: Exn, w1: World<S>, i: nat)
    requires n.Begin? && n.ensuring.None? && Run(Code, fuel, n.body, sc, w) == Some(Out(Raised(e), w1))
    requires i < |n.rescues| && Named(n.rescues[i], e) && forall j :: 0 <= j < i ==> !Named(n.rescues[j], e)
    requires n.rescues[i].body.Reraise?
    ensures Run(Code, fuel, n, sc, w) == Some(Out(Raised(e), World(n.rescues[i].bind(w1.s, e), w1.trace)))
  {
    var w2 := World(n.rescues[i].bind(w1.s, e), w1.trace);
    assert Run(Code, fuel, n.rescues[i].body, Scope(Some(e), Some(e)), w2) == Some(Out(Raised(e), w2));
    RescueRule(fuel, n, sc, w, e, w1, i, Out(Raised(e), w2));
  }

  /** `while s < LAST; s += 1; end` */
  function Counting(last: int): Node<int> {
    While(Act((s: int, bang) => (s, if s < last then Data(1) else Nil)), false, false,
          Act((s: int, bang) => (s + 1, Nil)))
  }

  lemma {:induction false} CountsUp(rd: Reading, fuel: nat, last: int, sc: Scope, s: int, trace: seq<Event>)
    requires s <= last <= s + fuel
    ensures Run(rd, fuel, Counting(last), sc, World(s, trace)) == Some(Out(Done(Nil), World(last, trace)))
    decreases fuel
  {
    var n, w := Counting(last), World(s, trace);
    assert Run(rd, fuel, n.cond, sc, w) == Some(Out(Done(if s < last then Data(1) else Nil), w));
    if s == last {
      LoopStops(rd, fuel, n.cond, false, n.body, sc, w, Nil, w);
    } else {
      var w1 := World(s + 1, trace);
      assert Run(rd, fuel, n.body, sc, w) == Some(Out(Done(Nil), w1));
      LoopRuns(rd, fuel, n.cond, false, n.body, sc, w, Data(1), w, Out(Done(Nil), w1));
      CountsUp(rd, fuel - 1, last, sc, s + 1, trace);
    }
  }
}
