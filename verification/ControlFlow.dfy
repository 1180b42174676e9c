/**
  * Exceptions and control flow of the tree-walking evaluator.
  *
  * The evaluator returns signals as values and keeps the exception itself in registers that it saves,
  * clears and restores by hand. `Run` is a semantics without registers: the exception travels in the
  * outcome, and what `raise` without an argument and `$!` see is passed down like a parameter. The
  * class `Evaluator` is the register machine; its methods are proved to compute what `Run` says.
  */
module ControlFlow {
  import opened Options

  /** An exception object: its class with the superclasses of that class, nearest first, and a message. */
  datatype Exn = Exn(cls: string, ancestors: seq<string>, msg: string)

  datatype Value = Nil | Data(n: int)

  /** A class named in a `rescue` clause; evaluating an unknown constant raises. */
  datatype ClassRef = Known(name: string) | Unknown(name: string)

  /** The part of the syntax tree that moves control. `Act` stands for user code; it can read `$!`. */
  datatype Node<!S> =
    | Act(f: (S, Option<Exn>) -> (S, Value))
    | Raise(make: S -> Exn)
    | Reraise
    | Body(stmts: seq<Node<S>>)
    | If(cond: Node<S>, unless: bool, thenBody: Node<S>, elseBody: Option<Node<S>>)
    | While(cond: Node<S>, until: bool, postTest: bool, body: Node<S>)
    | Break(value: Node<S>)
    | Next(value: Node<S>)
    | Return(value: Node<S>)
    | Retry
    | Begin(id: nat, body: Node<S>, rescues: seq<Rescue<S>>, orElse: Option<Node<S>>, ensuring: Option<Node<S>>)

  /** An empty class list rescues everything. `bind` is the assignment of the exception variable. */
  datatype Rescue<!S> = Rescue(classes: seq<ClassRef>, bind: (S, Exn) -> S, body: Node<S>)

  // ---------------------------------------------------------------------------------------------
  // Outcomes
  // ---------------------------------------------------------------------------------------------

  datatype Outcome =
    | Done(v: Value)
    | Raised(e: Exn)
    | Broke(v: Value)
    | Nexted(v: Value)
    | Returned(v: Value)
    | Retried

  /** `Entered` opens an activation of a `begin` with an `ensure`; `Ensuring` is the start of its ensure body. */
  datatype Event = Entered(id: nat) | Ensuring(id: nat)

  /** The user's state and the record of activations; `trace` is never read, only extended. */
  datatype World<S> = World(s: S, trace: seq<Event>) {
    function Note(ev: Event): World<S> {
      World(s, trace + [ev])
    }
  }

  datatype Out<S> = Out(o: Outcome, w: World<S>)

  function Truthy(v: Value): bool {
    v != Nil
  }

  const PLAIN := Exn("RuntimeError", ["StandardError", "Exception"], "RuntimeError")

  predicate IsA(e: Exn, name: string) {
    e.cls == name || name in e.ancestors
  }

  predicate Catches<S>(r: Rescue<S>, e: Exn) {
    r.classes == [] || exists i :: 0 <= i < |r.classes| && r.classes[i].Known? && IsA(e, r.classes[i].name)
  }

  /** The first clause that catches, or the number of clauses. */
  function FirstCatching<S>(rs: seq<Rescue<S>>, e: Exn): (i: nat)
    ensures i <= |rs|
    ensures forall j :: 0 <= j < i ==> !Catches(rs[j], e)
    ensures i < |rs| ==> Catches(rs[i], e)
  {
    if rs == [] || Catches(rs[0], e) then 0 else 1 + FirstCatching(rs[1..], e)
  }

  /** Which clause takes an exception, or the constant that could not be found while looking for it. */
  datatype Choice = Clause(i: nat) | NoClause | NoConstant(name: string)

  function Later(c: Choice): Choice {
    if c.Clause? then Clause(c.i + 1) else c
  }

  /** Ruby evaluates the classes one after the other until one matches; a constant it cannot find raises. */
  function InOrder(classes: seq<ClassRef>, e: Exn): (c: Choice)
    ensures c.Clause? ==> c == Clause(0)
  {
    if classes == [] then NoClause
    else if classes[0].Unknown? then NoConstant(classes[0].name)
    else if IsA(e, classes[0].name) then Clause(0)
    else InOrder(classes[1..], e)
  }

  function RubyClause<S>(rs: seq<Rescue<S>>, e: Exn): (c: Choice)
    ensures c.Clause? ==> c.i < |rs|
  {
    if rs == [] then NoClause
    else
      var first := if rs[0].classes == [] then Clause(0) else InOrder(rs[0].classes, e);
      if first.NoClause? then Later(RubyClause(rs[1..], e)) else first
  }

  /** The code skips a class that does not resolve. */
  function CodeClause<S>(rs: seq<Rescue<S>>, e: Exn): (c: Choice)
    ensures c.Clause? ==> c.i < |rs|
  {
    var i := FirstCatching(rs, e);
    if i < |rs| then Clause(i) else NoClause
  }

  function ClauseFor<S>(rd: Reading, rs: seq<Rescue<S>>, e: Exn): (c: Choice)
    ensures c.Clause? ==> c.i < |rs|
  {
    if rd.Ruby? then RubyClause(rs, e) else CodeClause(rs, e)
  }

  /** Class `k` of a list does not resolve, and no class before it matches. */
  ghost predicate UnknownAt(classes: seq<ClassRef>, e: Exn, k: nat) {
    k < |classes| && classes[k].Unknown? && forall l :: 0 <= l < k ==> !(classes[l].Known? && IsA(e, classes[l].name))
  }

  /** A class that does not resolve stands before every class that matches. */
  ghost predicate UnknownFirst<S>(rs: seq<Rescue<S>>, e: Exn) {
    exists i: nat, k: nat :: i < |rs| && UnknownAt(rs[i].classes, e, k) && forall j :: 0 <= j < i ==> !Catches(rs[j], e)
  }

  lemma {:induction false} InOrderMeans(classes: seq<ClassRef>, e: Exn)
    ensures InOrder(classes, e).NoConstant? <==> exists k: nat :: UnknownAt(classes, e, k)
    ensures InOrder(classes, e).Clause? ==>
              exists k :: 0 <= k < |classes| && classes[k].Known? && IsA(e, classes[k].name)
    ensures InOrder(classes, e).NoClause? ==>
              forall k :: 0 <= k < |classes| ==> classes[k].Known? && !IsA(e, classes[k].name)
  {
    if classes == [] {
    } else if classes[0].Unknown? {
      assert UnknownAt(classes, e, 0);
    } else if IsA(e, classes[0].name) {
    } else {
      InOrderMeans(classes[1..], e);
      if k: nat :| UnknownAt(classes[1..], e, k) {
        assert UnknownAt(classes, e, k + 1);
      }
      if k: nat :| UnknownAt(classes, e, k) {
        assert UnknownAt(classes[1..], e, k - 1);
      }
    }
  }

  lemma UnknownLater<S>(rs: seq<Rescue<S>>, e: Exn)
    requires rs != [] && !Catches(rs[0], e) && !(exists k: nat :: UnknownAt(rs[0].classes, e, k))
    ensures UnknownFirst(rs, e) <==> UnknownFirst(rs[1..], e)
  {
    if UnknownFirst(rs, e) {
      var i: nat, k: nat :| i < |rs| && UnknownAt(rs[i].classes, e, k) && forall j :: 0 <= j < i ==> !Catches(rs[j], e);
      assert rs[1..][i - 1] == rs[i];
    }
    if UnknownFirst(rs[1..], e) {
      var i: nat, k: nat :| i < |rs[1..]| && UnknownAt(rs[1..][i].classes, e, k) &&
                            forall j :: 0 <= j < i ==> !Catches(rs[1..][j], e);
      assert forall j :: 0 < j < i + 1 ==> rs[j] == rs[1..][j - 1];
      assert UnknownAt(rs[i + 1].classes, e, k);
    }
  }

  /** Exactly when code and Ruby choose differently: a class that does not resolve is reached. */
  lemma {:induction false} ClauseAgreesIff<S>(rs: seq<Rescue<S>>, e: Exn)
    ensures CodeClause(rs, e) == RubyClause(rs, e) <==> !UnknownFirst(rs, e)
  {
    if rs == [] {
    } else {
      InOrderMeans(rs[0].classes, e);
      if k: nat :| UnknownAt(rs[0].classes, e, k) {
        assert UnknownFirst(rs, e);
      } else if !Catches(rs[0], e) {
        UnknownLater(rs, e);
        ClauseAgreesIff(rs[1..], e);
      }
    }
  }

  function NameError(name: string): Exn {
    Exn("NameError", ["StandardError", "Exception"], "uninitialized constant " + name)
  }

  // ---------------------------------------------------------------------------------------------
  // The register-free semantics, indexed by a bound on loop iterations and retries
  // ---------------------------------------------------------------------------------------------

  /**
    * Two readings of the same tree, as the code runs it and as Ruby defines it. They differ in `LoopExit`,
    * `RunsElse` and `ClauseFor`.
    */
  datatype Reading = Code | Ruby

  /** What `raise` without argument and `$!` see: both change only around a rescue body. */
  datatype Scope = Scope(rescuing: Option<Exn>, bang: Option<Exn>)

  function Run<S>(rd: Reading, fuel: nat, n: Node<S>, sc: Scope, w: World<S>): Option<Out<S>>
    decreases fuel, n, 4
  {
    match n
    case Act(f) => var (s', v) := f(w.s, sc.bang); Some(Out(Done(v), w.(s := s')))
    case Raise(make) => Some(Out(Raised(make(w.s)), w))
    case Reraise => Some(Out(Raised(if sc.rescuing.Some? then sc.rescuing.value else PLAIN), w))
    case Body(stmts) => RunAll(rd, fuel, stmts, sc, w, Nil)
    case If(cond, unless, thenBody, elseBody) =>
      var c := Run(rd, fuel, cond, sc, w);
      if c.None? || !c.value.o.Done? then c
      else if Truthy(c.value.o.v) != unless then Run(rd, fuel, thenBody, sc, c.value.w)
      else if elseBody.Some? then Run(rd, fuel, elseBody.value, sc, c.value.w)
      else Some(Out(Done(Nil), c.value.w))
    case While(_, _, _, _) => RunLoop(rd, fuel, n, sc, w)
    case Break(value) =>
      var v := Run(rd, fuel, value, sc, w);
      if v.None? || !v.value.o.Done? then v else Some(Out(Broke(v.value.o.v), v.value.w))
    case Next(value) =>
      var v := Run(rd, fuel, value, sc, w);
      if v.None? || !v.value.o.Done? then v else Some(Out(Nexted(v.value.o.v), v.value.w))
    case Return(value) =>
      var v := Run(rd, fuel, value, sc, w);
      if v.None? || !v.value.o.Done? then v else Some(Out(Returned(v.value.o.v), v.value.w))
    case Retry => Some(Out(Retried, w))
    case Begin(id, _, _, _, ensuring) =>
      if ensuring.None? then RunAttempts(rd, fuel, n, sc, w, false)
      else
        var r := RunAttempts(rd, fuel, n, sc, w.Note(Entered(id)), false);
        if r.None? then None
        else Ensured(r.value.o, Run(rd, fuel, ensuring.value, sc, r.value.w.Note(Ensuring(id))))
  }

  /** An ensure body that completes is forgotten; one that does not replaces the result. */
  function Ensured<S>(o: Outcome, e: Option<Out<S>>): Option<Out<S>> {
    if e.None? || !e.value.o.Done? then e else Some(Out(o, e.value.w))
  }

  function RunAll<S>(rd: Reading, fuel: nat, stmts: seq<Node<S>>, sc: Scope, w: World<S>, last: Value): Option<Out<S>>
    decreases fuel, stmts, 1
  {
    if stmts == [] then Some(Out(Done(last), w))
    else
      var r := Run(rd, fuel, stmts[0], sc, w);
      if r.None? || !r.value.o.Done? then r else RunAll(rd, fuel, stmts[1..], sc, r.value.w, r.value.o.v)
  }

  /** One round of a loop or of a `begin`: it ends with an outcome, or the whole thing goes round again. */
  datatype Round<S> = Stuck | End(out: Out<S>) | Again(w: World<S>)

  /** The condition of a loop: `End` leaves the loop, by a signal or because the condition says so. */
  function TestRound<S>(rd: Reading, fuel: nat, n: Node<S>, sc: Scope, w: World<S>): Round<S>
    requires n.While?
    decreases fuel, n, 0
  {
    var c := Run(rd, fuel, n.cond, sc, w);
    if c.None? then Stuck
    else if !c.value.o.Done? then End(c.value)
    else if Truthy(c.value.o.v) != n.until then Again(c.value.w)
    else End(Out(Done(Nil), c.value.w))
  }

  /** What a loop does with the outcome of its body: `None` goes on. The code swallows a `retry` from the body. */
  function LoopExit(rd: Reading, o: Outcome): Option<Outcome> {
    match o
    case Broke(v) => Some(Done(v))
    case Returned(_) => Some(o)
    case Raised(_) => Some(o)
    case Retried => if rd.Ruby? then Some(o) else None
    case _ => None
  }

  function BodyRound<S>(rd: Reading, fuel: nat, n: Node<S>, sc: Scope, w: World<S>): Round<S>
    requires n.While?
    decreases fuel, n, 1
  {
    var b := Run(rd, fuel, n.body, sc, w);
    if b.None? then Stuck
    else if LoopExit(rd, b.value.o).Some? then End(Out(LoopExit(rd, b.value.o).value, b.value.w))
    else if n.postTest then TestRound(rd, fuel, n, sc, b.value.w)
    else Again(b.value.w)
  }

  function LoopRound<S>(rd: Reading, fuel: nat, n: Node<S>, sc: Scope, w: World<S>): Round<S>
    requires n.While?
    decreases fuel, n, 2
  {
    if n.postTest then BodyRound(rd, fuel, n, sc, w)
    else
      var c := TestRound(rd, fuel, n, sc, w);
      if c.Again? then BodyRound(rd, fuel, n, sc, c.w) else c
  }

  function RunLoop<S>(rd: Reading, fuel: nat, n: Node<S>, sc: Scope, w: World<S>): Option<Out<S>>
    requires n.While?
    decreases fuel, n, 3
  {
    match LoopRound(rd, fuel, n, sc, w)
    case Stuck => None
    case End(out) => Some(out)
    case Again(w') => if fuel == 0 then None else RunLoop(rd, fuel - 1, n, sc, w')
  }

  /** Whether `else` follows a body that ends in `o`: in the code as long as nothing was ever rescued. */
  predicate RunsElse(rd: Reading, rescued: bool, o: Outcome) {
    if rd.Ruby? then o.Done? else !rescued
  }

  /** One attempt at a `begin`: body, then a rescue clause or `else`. */
  function Attempt<S>(rd: Reading, fuel: nat, n: Node<S>, sc: Scope, w: World<S>, rescued: bool): Round<S>
    requires n.Begin?
    decreases fuel, n, 2
  {
    var b := Run(rd, fuel, n.body, sc, w);
    if b.None? then Stuck
    else if b.value.o.Raised? then
      var c := ClauseFor(rd, n.rescues, b.value.o.e);
      if c.Clause? then RescueRound(rd, fuel, n.rescues[c.i], b.value.o.e, b.value.w)
      else if c.NoClause? then End(b.value)
      else End(Out(Raised(NameError(c.name)), b.value.w))
    else if n.orElse.None? || !RunsElse(rd, rescued, b.value.o) then End(b.value)
    else
      var r := Run(rd, fuel, n.orElse.value, sc, b.value.w);
      if r.None? then Stuck else End(r.value)
  }

  function RescueRound<S>(rd: Reading, fuel: nat, clause: Rescue<S>, e: Exn, w: World<S>): Round<S>
    decreases fuel, clause, 0
  {
    var r := Run(rd, fuel, clause.body, Scope(Some(e), Some(e)), w.(s := clause.bind(w.s, e)));
    if r.None? then Stuck else if r.value.o.Retried? then Again(r.value.w) else End(r.value)
  }

  /** All attempts, from one `retry` to the next. Once something was rescued, `rescued` is never reset. */
  function RunAttempts<S>(rd: Reading, fuel: nat, n: Node<S>, sc: Scope, w: World<S>, rescued: bool): Option<Out<S>>
    requires n.Begin?
    decreases fuel, n, 3
  {
    match Attempt(rd, fuel, n, sc, w, rescued)
    case Stuck => None
    case End(out) => Some(out)
    case Again(w') => if fuel == 0 then None else RunAttempts(rd, fuel - 1, n, sc, w', true)
  }

  // ---------------------------------------------------------------------------------------------
  // A run that ends is the same whatever the bound
  // ---------------------------------------------------------------------------------------------

  lemma {:induction false} MoreFuel<S>(rd: Reading, fuel: nat, more: nat, n: Node<S>, sc: Scope, w: World<S>)
    requires fuel <= more && Run(rd, fuel, n, sc, w).Some?
    ensures Run(rd, more, n, sc, w) == Run(rd, fuel, n, sc, w)
    decreases fuel, n, 4
  {
    match n
    case Act(_) =>
    case Raise(_) =>
    case Reraise =>
    case Retry =>
    case Body(stmts) => MoreFuelAll(rd, fuel, more, stmts, sc, w, Nil);
    case If(cond, unless, thenBody, elseBody) =>
      MoreFuel(rd, fuel, more, cond, sc, w);
      var c := Run(rd, fuel, cond, sc, w).value;
      if c.o.Done? {
        if Truthy(c.o.v) != unless {
          MoreFuel(rd, fuel, more, thenBody, sc, c.w);
        } else if elseBody.Some? {
          MoreFuel(rd, fuel, more, elseBody.value, sc, c.w);
        }
      }
    case While(_, _, _, _) => MoreFuelLoop(rd, fuel, more, n, sc, w);
    case Break(value) => MoreFuel(rd, fuel, more, value, sc, w);
    case Next(value) => MoreFuel(rd, fuel, more, value, sc, w);
    case Return(value) => MoreFuel(rd, fuel, more, value, sc, w);
    case Begin(id, _, _, _, ensuring) =>
      var w' := if ensuring.None? then w else w.Note(Entered(id));
      MoreFuelAttempts(rd, fuel, more, n, sc, w', false);
      if ensuring.Some? {
        var r := RunAttempts(rd, fuel, n, sc, w', false).value;
        MoreFuel(rd, fuel, more, ensuring.value, sc, r.w.Note(Ensuring(id)));
      }
  }

  lemma {:induction false} MoreFuelAll<S>(rd: Reading, fuel: nat, more: nat, stmts: seq<Node<S>>,
                                          sc: Scope, w: World<S>,
                                          last: Value)
    requires fuel <= more && RunAll(rd, fuel, stmts, sc, w, last).Some?
    ensures RunAll(rd, more, stmts, sc, w, last) == RunAll(rd, fuel, stmts, sc, w, last)
    decreases fuel, stmts, 1
  {
    if stmts == [] {
    } else {
      MoreFuel(rd, fuel, more, stmts[0], sc, w);
      var r := Run(rd, fuel, stmts[0], sc, w).value;
      if r.o.Done? {
        MoreFuelAll(rd, fuel, more, stmts[1..], sc, r.w, r.o.v);
      }
    }
  }

  lemma MoreFuelTest<S>(rd: Reading, fuel: nat, more: nat, n: Node<S>, sc: Scope, w: World<S>)
    requires n.While? && fuel <= more && !TestRound(rd, fuel, n, sc, w).Stuck?
    ensures TestRound(rd, more, n, sc, w) == TestRound(rd, fuel, n, sc, w)
    decreases fuel, n, 0
  {
    MoreFuel(rd, fuel, more, n.cond, sc, w);
  }

  lemma MoreFuelBody<S>(rd: Reading, fuel: nat, more: nat, n: Node<S>, sc: Scope, w: World<S>)
    requires n.While? && fuel <= more && !BodyRound(rd, fuel, n, sc, w).Stuck?
    ensures BodyRound(rd, more, n, sc, w) == BodyRound(rd, fuel, n, sc, w)
    decreases fuel, n, 1
  {
    MoreFuel(rd, fuel, more, n.body, sc, w);
    var b := Run(rd, fuel, n.body, sc, w).value;
    if LoopExit(rd, b.o).None? && n.postTest {
      MoreFuelTest(rd, fuel, more, n, sc, b.w);
    }
  }

  lemma {:induction false} MoreFuelLoop<S>(rd: Reading, fuel: nat, more: nat, n: Node<S>, sc: Scope, w: World<S>)
    requires n.While? && fuel <= more && RunLoop(rd, fuel, n, sc, w).Some?
    ensures RunLoop(rd, more, n, sc, w) == RunLoop(rd, fuel, n, sc, w)
    decreases fuel, n, 3
  {
    if n.postTest {
      MoreFuelBody(rd, fuel, more, n, sc, w);
    } else {
      MoreFuelTest(rd, fuel, more, n, sc, w);
      var c := TestRound(rd, fuel, n, sc, w);
      if c.Again? {
        MoreFuelBody(rd, fuel, more, n, sc, c.w);
      }
    }
    var round := LoopRound(rd, fuel, n, sc, w);
    if round.Again? {
      MoreFuelLoop(rd, fuel - 1, more - 1, n, sc, round.w);
    }
  }

  lemma MoreFuelRescue<S>(rd: Reading, fuel: nat, more: nat, clause: Rescue<S>, e: Exn, w: World<S>)
    requires fuel <= more && !RescueRound(rd, fuel, clause, e, w).Stuck?
    ensures RescueRound(rd, more, clause, e, w) == RescueRound(rd, fuel, clause, e, w)
    decreases fuel, clause, 0
  {
    MoreFuel(rd, fuel, more, clause.body, Scope(Some(e), Some(e)), w.(s := clause.bind(w.s, e)));
  }

  lemma MoreFuelAttempt<S>(rd: Reading, fuel: nat, more: nat, n: Node<S>, sc: Scope, w: World<S>, rescued: bool)
    requires n.Begin? && fuel <= more && !Attempt(rd, fuel, n, sc, w, rescued).Stuck?
    ensures Attempt(rd, more, n, sc, w, rescued) == Attempt(rd, fuel, n, sc, w, rescued)
    decreases fuel, n, 2
  {
    MoreFuel(rd, fuel, more, n.body, sc, w);
    var b := Run(rd, fuel, n.body, sc, w).value;
    if b.o.Raised? {
      var c := ClauseFor(rd, n.rescues, b.o.e);
      if c.Clause? {
        MoreFuelRescue(rd, fuel, more, n.rescues[c.i], b.o.e, b.w);
      }
    } else if n.orElse.Some? && RunsElse(rd, rescued, b.o) {
      MoreFuel(rd, fuel, more, n.orElse.value, sc, b.w);
    }
  }

  lemma {:induction false} MoreFuelAttempts<S>(rd: Reading, fuel: nat, more: nat, n: Node<S>,
                                               sc: Scope, w: World<S>, rescued: bool)
    requires n.Begin? && fuel <= more && RunAttempts(rd, fuel, n, sc, w, rescued).Some?
    ensures RunAttempts(rd, more, n, sc, w, rescued) == RunAttempts(rd, fuel, n, sc, w, rescued)
    decreases fuel, n, 3
  {
    MoreFuelAttempt(rd, fuel, more, n, sc, w, rescued);
    var round := Attempt(rd, fuel, n, sc, w, rescued);
    if round.Again? {
      MoreFuelAttempts(rd, fuel - 1, more - 1, n, sc, round.w, true);
    }
  }

  // ---------------------------------------------------------------------------------------------
  // Every activation runs its ensure body exactly once
  // ---------------------------------------------------------------------------------------------

  /** The activations that are open after `t`, if `t` is a beginning of a well-bracketed word. */
  function Open(t: seq<Event>): Option<seq<nat>> {
    if t == [] then Some([])
    else
      var before := Open(t[..|t| - 1]);
      if before.None? then None
      else
        match t[|t| - 1]
        case Entered(id) => Some(before.value + [id])
        case Ensuring(id) =>
          var st := before.value;
          if st != [] && st[|st| - 1] == id then Some(st[..|st| - 1]) else None
  }

  lemma OpenNote<S>(w: World<S>, id: nat)
    requires Open(w.trace).Some?
    ensures Open(w.Note(Entered(id)).trace) == Some(Open(w.trace).value + [id])
    ensures forall st :: Open(w.trace) == Some(st + [id]) ==> Open(w.Note(Ensuring(id)).trace) == Some(st)
  {
    assert w.Note(Entered(id)).trace[..|w.trace|] == w.trace;
    assert w.Note(Ensuring(id)).trace[..|w.trace|] == w.trace;
    forall st | Open(w.trace) == Some(st + [id])
      ensures Open(w.Note(Ensuring(id)).trace) == Some(st)
    {
      assert (st + [id])[..|st|] == st;
    }
  }

  /** `w'` has closed exactly the activations it has opened since `w`. */
  ghost predicate Balanced<S>(w: World<S>, w': World<S>) {
    Open(w.trace).Some? ==> Open(w'.trace) == Open(w.trace)
  }

  ghost predicate BalancedRound<S>(w: World<S>, r: Round<S>) {
    match r
    case Stuck => true
    case End(out) => Balanced(w, out.w)
    case Again(w') => Balanced(w, w')
  }

  lemma {:induction false} EnsureOnce<S>(rd: Reading, fuel: nat, n: Node<S>, sc: Scope, w: World<S>)
    requires Run(rd, fuel, n, sc, w).Some?
    ensures Balanced(w, Run(rd, fuel, n, sc, w).value.w)
    decreases fuel, n, 4
  {
    match n
    case Act(_) =>
    case Raise(_) =>
    case Reraise =>
    case Retry =>
    case Body(stmts) => EnsureOnceAll(rd, fuel, stmts, sc, w, Nil);
    case If(cond, unless, thenBody, elseBody) =>
      EnsureOnce(rd, fuel, cond, sc, w);
      var c := Run(rd, fuel, cond, sc, w).value;
      if c.o.Done? {
        if Truthy(c.o.v) != unless {
          EnsureOnce(rd, fuel, thenBody, sc, c.w);
        } else if elseBody.Some? {
          EnsureOnce(rd, fuel, elseBody.value, sc, c.w);
        }
      }
    case While(_, _, _, _) => EnsureOnceLoop(rd, fuel, n, sc, w);
    case Break(value) => EnsureOnce(rd, fuel, value, sc, w);
    case Next(value) => EnsureOnce(rd, fuel, value, sc, w);
    case Return(value) => EnsureOnce(rd, fuel, value, sc, w);
    case Begin(id, _, _, _, ensuring) =>
      if ensuring.None? {
        EnsureOnceAttempts(rd, fuel, n, sc, w, false);
      } else {
        EnsureOnceAttempts(rd, fuel, n, sc, w.Note(Entered(id)), false);
        var w' := RunAttempts(rd, fuel, n, sc, w.Note(Entered(id)), false).value.w;
        if Open(w.trace).Some? {
          OpenNote(w, id);
          OpenNote(w', id);
        }
        EnsureOnce(rd, fuel, ensuring.value, sc, w'.Note(Ensuring(id)));
      }
  }

  lemma {:induction false} EnsureOnceAll<S>(rd: Reading, fuel: nat, stmts: seq<Node<S>>,
                                            sc: Scope, w: World<S>, last: Value)
    requires RunAll(rd, fuel, stmts, sc, w, last).Some?
    ensures Balanced(w, RunAll(rd, fuel, stmts, sc, w, last).value.w)
    decreases fuel, stmts, 1
  {
    if stmts == [] {
    } else {
      EnsureOnce(rd, fuel, stmts[0], sc, w);
      var r := Run(rd, fuel, stmts[0], sc, w).value;
      if r.o.Done? {
        EnsureOnceAll(rd, fuel, stmts[1..], sc, r.w, r.o.v);
      }
    }
  }

  lemma EnsureOnceTest<S>(rd: Reading, fuel: nat, n: Node<S>, sc: Scope, w: World<S>)
    requires n.While?
    ensures BalancedRound(w, TestRound(rd, fuel, n, sc, w))
    decreases fuel, n, 0
  {
    if Run(rd, fuel, n.cond, sc, w).Some? {
      EnsureOnce(rd, fuel, n.cond, sc, w);
    }
  }

  lemma EnsureOnceBody<S>(rd: Reading, fuel: nat, n: Node<S>, sc: Scope, w: World<S>)
    requires n.While?
    ensures BalancedRound(w, BodyRound(rd, fuel, n, sc, w))
    decreases fuel, n, 1
  {
    var b := Run(rd, fuel, n.body, sc, w);
    if b.Some? {
      EnsureOnce(rd, fuel, n.body, sc, w);
      if LoopExit(rd, b.value.o).None? && n.postTest {
        EnsureOnceTest(rd, fuel, n, sc, b.value.w);
      }
    }
  }

  lemma {:induction false} EnsureOnceLoop<S>(rd: Reading, fuel: nat, n: Node<S>, sc: Scope, w: World<S>)
    requires n.While? && RunLoop(rd, fuel, n, sc, w).Some?
    ensures Balanced(w, RunLoop(rd, fuel, n, sc, w).value.w)
    decreases fuel, n, 3
  {
    if n.postTest {
      EnsureOnceBody(rd, fuel, n, sc, w);
    } else {
      EnsureOnceTest(rd, fuel, n, sc, w);
      var c := TestRound(rd, fuel, n, sc, w);
      if c.Again? {
        EnsureOnceBody(rd, fuel, n, sc, c.w);
      }
    }
    var round := LoopRound(rd, fuel, n, sc, w);
    if round.Again? {
      EnsureOnceLoop(rd, fuel - 1, n, sc, round.w);
    }
  }

  lemma EnsureOnceAttempt<S>(rd: Reading, fuel: nat, n: Node<S>, sc: Scope, w: World<S>, rescued: bool)
    requires n.Begin?
    ensures BalancedRound(w, Attempt(rd, fuel, n, sc, w, rescued))
    decreases fuel, n, 2
  {
    var b := Run(rd, fuel, n.body, sc, w);
    if b.Some? {
      EnsureOnce(rd, fuel, n.body, sc, w);
      if b.value.o.Raised? {
        var c := ClauseFor(rd, n.rescues, b.value.o.e);
        if c.Clause? {
          EnsureOnceRescue(rd, fuel, n.rescues[c.i], b.value.o.e, b.value.w);
        }
      } else if n.orElse.Some? && RunsElse(rd, rescued, b.value.o) {
        if Run(rd, fuel, n.orElse.value, sc, b.value.w).Some? {
          EnsureOnce(rd, fuel, n.orElse.value, sc, b.value.w);
        }
      }
    }
  }

  lemma EnsureOnceRescue<S>(rd: Reading, fuel: nat, clause: Rescue<S>, e: Exn, w: World<S>)
    ensures BalancedRound(w, RescueRound(rd, fuel, clause, e, w))
    decreases fuel, clause, 0
  {
    var w' := w.(s := clause.bind(w.s, e));
    if Run(rd, fuel, clause.body, Scope(Some(e), Some(e)), w').Some? {
      EnsureOnce(rd, fuel, clause.body, Scope(Some(e), Some(e)), w');
    }
  }

  lemma {:induction false} EnsureOnceAttempts<S>(rd: Reading, fuel: nat, n: Node<S>,
                                                 sc: Scope, w: World<S>, rescued: bool)
    requires n.Begin? && RunAttempts(rd, fuel, n, sc, w, rescued).Some?
    ensures Balanced(w, RunAttempts(rd, fuel, n, sc, w, rescued).value.w)
    decreases fuel, n, 3
  {
    EnsureOnceAttempt(rd, fuel, n, sc, w, rescued);
    var round := Attempt(rd, fuel, n, sc, w, rescued);
    if round.Again? {
      EnsureOnceAttempts(rd, fuel - 1, n, sc, round.w, true);
    }
  }

  lemma CountSnoc<T>(s: seq<T>, x: T, y: T)
    ensures multiset(s + [x])[y] == multiset(s)[y] + if x == y then 1 else 0
  {
  }

  lemma OpenLast(init: seq<Event>, last: Event)
    requires Open(init + [last]).Some?
    ensures Open(init).Some?
    ensures
      var before, now := Open(init).value, Open(init + [last]).value;
      if last.Ensuring? then before == now + [last.id] else now == before + [last.id]
  {
    assert (init + [last])[..|init|] == init;
  }

  lemma {:induction false} OpenCounts(t: seq<Event>, id: nat)
    requires Open(t).Some?
    ensures multiset(t)[Entered(id)] == multiset(t)[Ensuring(id)] + multiset(Open(t).value)[id]
  {
    if |t| == 0 {
    } else {
      var init, last := t[..|t| - 1], t[|t| - 1];
      assert t == init + [last];
      OpenLast(init, last);
      OpenCounts(init, id);
      CountSnoc(init, last, Entered(id));
      CountSnoc(init, last, Ensuring(id));
      CountSnoc(if last.Ensuring? then Open(t).value else Open(init).value, last.id, id);
    }
  }

  /** In a whole program every `begin` with an `ensure` starts its ensure body as often as it is entered. */
  lemma EnsureCounts<S>(rd: Reading, fuel: nat, n: Node<S>, sc: Scope, s: S, id: nat)
    requires Run(rd, fuel, n, sc, World(s, [])).Some?
    ensures
      var t := multiset(Run(rd, fuel, n, sc, World(s, [])).value.w.trace);
      t[Entered(id)] == t[Ensuring(id)]
  {
    EnsureOnce(rd, fuel, n, sc, World(s, []));
    OpenCounts(Run(rd, fuel, n, sc, World(s, [])).value.w.trace, id);
  }

  // ---------------------------------------------------------------------------------------------
  // Laws of `begin`
  // ---------------------------------------------------------------------------------------------

  lemma {:induction false} AttemptsIgnoreEnsure<S>(rd: Reading, fuel: nat, n: Node<S>,
                                                   sc: Scope, w: World<S>, rescued: bool)
    requires n.Begin?
    ensures RunAttempts(rd, fuel, n.(ensuring := None), sc, w, rescued) == RunAttempts(rd, fuel, n, sc, w, rescued)
    decreases fuel
  {
    var round := Attempt(rd, fuel, n, sc, w, rescued);
    assert Attempt(rd, fuel, n.(ensuring := None), sc, w, rescued) == round;
    if round.Again? && fuel > 0 {
      AttemptsIgnoreEnsure(rd, fuel - 1, n, sc, round.w, true);
    }
  }

  /** `begin b rescue .. else .. ensure e end` means `begin (begin b rescue .. else .. end) ensure e end`. */
  lemma EnsureUnnests<S>(rd: Reading, fuel: nat, n: Node<S>, sc: Scope, w: World<S>)
    requires n.Begin? && n.ensuring.Some?
    ensures Run(rd, fuel, n, sc, w) == Run(rd, fuel, Begin(n.id, n.(ensuring := None), [], None, n.ensuring), sc, w)
  {
    var inner := n.(ensuring := None);
    var outer: Node<S> := Begin(n.id, inner, [], None, n.ensuring);
    var w' := w.Note(Entered(n.id));
    AttemptsIgnoreEnsure(rd, fuel, n, sc, w', false);
    assert Run(rd, fuel, inner, sc, w') == RunAttempts(rd, fuel, inner, sc, w', false);
    assert Attempt(rd, fuel, outer, sc, w', false) ==
           if Run(rd, fuel, inner, sc, w').None? then Stuck else End(Run(rd, fuel, inner, sc, w').value);
  }

  /** Once a clause has run, the `else` body is dead: a `retry` that succeeds does not bring it back. */
  lemma {:induction false} ElseDeadAfterRetry<S>(fuel: nat, n: Node<S>, sc: Scope, w: World<S>)
    requires n.Begin?
    ensures RunAttempts(Code, fuel, n, sc, w, true) == RunAttempts(Code, fuel, n.(orElse := None), sc, w, true)
    decreases fuel
  {
    var round := Attempt(Code, fuel, n, sc, w, true);
    assert Attempt(Code, fuel, n.(orElse := None), sc, w, true) == round;
    if round.Again? && fuel > 0 {
      ElseDeadAfterRetry(fuel - 1, n, sc, round.w);
    }
  }

  // One `begin`, whose clause is chosen and whose parts are run as in the code: in Ruby every attempt starts
  // afresh, and the else body runs after a body that completes, and after no other.

  function RubyAttempt<S>(fuel: nat, n: Node<S>, sc: Scope, w: World<S>): Round<S>
    requires n.Begin?
  {
    var b := Run(Code, fuel, n.body, sc, w);
    if b.None? || b.value.o.Raised? then Attempt(Code, fuel, n, sc, w, false)
    else if n.orElse.None? || !b.value.o.Done? then End(b.value)
    else
      var r := Run(Code, fuel, n.orElse.value, sc, b.value.w);
      if r.None? then Stuck else End(r.value)
  }

  function RubyAttempts<S>(fuel: nat, n: Node<S>, sc: Scope, w: World<S>): Option<Out<S>>
    requires n.Begin?
    decreases fuel
  {
    match RubyAttempt(fuel, n, sc, w)
    case Stuck => None
    case End(out) => Some(out)
    case Again(w') => if fuel == 0 then None else RubyAttempts(fuel - 1, n, sc, w')
  }

  /**
    * The attempt that settles the `begin` has an else body and either completes after a retry, so that the
    * code leaves the else body out, or ends in `break`, `next` or `return` the first time, so that the code
    * runs it.
    */
  predicate ElseMisplaced<S>(fuel: nat, n: Node<S>, sc: Scope, w: World<S>, rescued: bool)
    requires n.Begin?
    decreases fuel
  {
    var b := Run(Code, fuel, n.body, sc, w);
    if b.None? then false
    else if b.value.o.Raised? then
      var round := Attempt(Code, fuel, n, sc, w, rescued);
      round.Again? && fuel > 0 && ElseMisplaced(fuel - 1, n, sc, round.w, true)
    else n.orElse.Some? && (rescued <==> b.value.o.Done?)
  }

  /** Apart from that the code gives a `begin` the meaning it has in Ruby. */
  lemma {:induction false} BeginAgrees<S>(fuel: nat, n: Node<S>, sc: Scope, w: World<S>, rescued: bool)
    requires n.Begin? && !ElseMisplaced(fuel, n, sc, w, rescued)
    ensures RunAttempts(Code, fuel, n, sc, w, rescued) == RubyAttempts(fuel, n, sc, w)
    decreases fuel
  {
    var round := Attempt(Code, fuel, n, sc, w, rescued);
    assert RubyAttempt(fuel, n, sc, w) == round;
    if round.Again? && fuel > 0 {
      BeginAgrees(fuel - 1, n, sc, round.w, true);
    }
  }

  /** The settling attempt's body outcome, and what the else body makes of it. */
  function Settling<S>(fuel: nat, n: Node<S>, sc: Scope, w: World<S>): Option<(Out<S>, Option<Out<S>>)>
    requires n.Begin?
    decreases fuel
  {
    var b := Run(Code, fuel, n.body, sc, w);
    if b.None? || n.orElse.None? then None
    else if b.value.o.Raised? then
      var round := Attempt(Code, fuel, n, sc, w, false);
      if round.Again? && fuel > 0 then Settling(fuel - 1, n, sc, round.w) else None
    else Some((b.value, Run(Code, fuel, n.orElse.value, sc, b.value.w)))
  }

  /**
    * Exactly when the two readings of a `begin` differ: the else body is misplaced, and running it is not
    * the same as leaving it out.
    */
  lemma {:induction false} BeginAgreesIff<S>(fuel: nat, n: Node<S>, sc: Scope, w: World<S>, rescued: bool)
    requires n.Begin?
    ensures RunAttempts(Code, fuel, n, sc, w, rescued) == RubyAttempts(fuel, n, sc, w) <==>
              ElseMisplaced(fuel, n, sc, w, rescued) ==>
                var s := Settling(fuel, n, sc, w);
                s.Some? ==> s.value.1 == Some(s.value.0)
    decreases fuel
  {
    if !ElseMisplaced(fuel, n, sc, w, rescued) {
      BeginAgrees(fuel, n, sc, w, rescued);
    } else {
      var b := Run(Code, fuel, n.body, sc, w);
      if b.value.o.Raised? {
        var round := Attempt(Code, fuel, n, sc, w, rescued);
        assert Attempt(Code, fuel, n, sc, w, false) == round == RubyAttempt(fuel, n, sc, w);
        BeginAgreesIff(fuel - 1, n, sc, round.w, true);
      }
    }
  }

  /** So with an else body that raises they differ on every run in which it is misplaced. */
  lemma {:induction false} RaisingElseDiffers<S>(fuel: nat, n: Node<S>, sc: Scope, w: World<S>, rescued: bool)
    requires n.Begin? && n.orElse.Some? && n.orElse.value.Raise?
    ensures RunAttempts(Code, fuel, n, sc, w, rescued) == RubyAttempts(fuel, n, sc, w) <==>
              !ElseMisplaced(fuel, n, sc, w, rescued)
    decreases fuel
  {
    if ElseMisplaced(fuel, n, sc, w, rescued) {
      var b := Run(Code, fuel, n.body, sc, w);
      if b.value.o.Raised? {
        var round := Attempt(Code, fuel, n, sc, w, rescued);
        assert RubyAttempt(fuel, n, sc, w) == round;
        RaisingElseDiffers(fuel - 1, n, sc, round.w, true);
      } else {
        assert Run(Code, fuel, n.orElse.value, sc, b.value.w).value.o.Raised?;
      }
    } else {
      BeginAgrees(fuel, n, sc, w, rescued);
    }
  }

  /**
    * `begin; raise if s == 0; rescue; s = 1; retry; else; raise; end` completes in the code, whereas in Ruby
    * the else body of the second attempt raises. The state is the variable `s`.
    */
  function RetryThenElse(): Node<int> {
    Begin(0,
          If(Act((s: int, bang) => (s, if s == 0 then Data(1) else Nil)), false, Raise((s: int) => PLAIN), None),
          [Rescue([], (s: int, e) => 1, Retry)],
          Some(Raise((s: int) => PLAIN)),
          None)
  }

  lemma BodyOfExample(rd: Reading, fuel: nat, sc: Scope, w: World<int>)
    ensures Run(rd, fuel, RetryThenElse().body, sc, w) ==
              Some(if w.s == 0 then Out(Raised(PLAIN), w) else Out(Done(Nil), w))
  {
    var n := RetryThenElse();
    assert Run(rd, fuel, n.body.cond, sc, w) == Some(Out(Done(if w.s == 0 then Data(1) else Nil), w));
  }

  lemma RetryThenElseAttempts(rd: Reading, fuel: nat, sc: Scope)
    requires fuel >= 1
    ensures Attempt(rd, fuel, RetryThenElse(), sc, World(0, []), false) == Again(World(1, []))
    ensures Attempt(rd, fuel - 1, RetryThenElse(), sc, World(1, []), true) ==
              End(Out(if rd.Ruby? then Raised(PLAIN) else Done(Nil), World(1, [])))
  {
    var n := RetryThenElse();
    var w0, w1 := World(0, []), World(1, []);
    BodyOfExample(rd, fuel, sc, w0);
    BodyOfExample(rd, fuel - 1, sc, w1);
    assert Catches(n.rescues[0], PLAIN) && FirstCatching(n.rescues, PLAIN) == 0;
    assert Run(rd, fuel, Retry, Scope(Some(PLAIN), Some(PLAIN)), w1) == Some(Out(Retried, w1));
    assert RescueRound(rd, fuel, n.rescues[0], PLAIN, w0) == Again(w1);
  }

  lemma RetryLosesElse(rd: Reading, fuel: nat, sc: Scope)
    requires fuel >= 1
    ensures Run(rd, fuel, RetryThenElse(), sc, World(0, [])) ==
              Some(Out(if rd.Ruby? then Raised(PLAIN) else Done(Nil), World(1, [])))
    ensures RubyAttempts(fuel, RetryThenElse(), sc, World(0, [])) == Some(Out(Raised(PLAIN), World(1, [])))
  {
    var n := RetryThenElse();
    var w0, w1 := World(0, []), World(1, []);
    RetryThenElseAttempts(rd, fuel, sc);
    RetryThenElseAttempts(Code, fuel, sc);
    assert RubyAttempt(fuel, n, sc, w0) == Again(w1);
    assert RubyAttempts(fuel - 1, n, sc, w1) == Some(Out(Raised(PLAIN), w1)) by {
      BodyOfExample(Code, fuel - 1, sc, w1);
    }
    assert RunAttempts(rd, fuel - 1, n, sc, w1, true) ==
           Some(Out(if rd.Ruby? then Raised(PLAIN) else Done(Nil), w1));
  }

  /** `begin; raise; rescue Nope; end`, where `Nope` is not defined. */
  function UnknownClass(): Node<int> {
    Begin(0, Raise((s: int) => PLAIN), [Rescue([Unknown("Nope")], (s: int, e) => s, Body([]))], None, None)
  }

  /** In the code the first exception goes on; in Ruby it is replaced by the NameError. */
  lemma UnknownClassSkipped(rd: Reading, fuel: nat, sc: Scope, w: World<int>)
    ensures
      Run(rd, fuel, UnknownClass(), sc, w) == Some(Out(Raised(if rd.Ruby? then NameError("Nope") else PLAIN), w))
  {
    var n := UnknownClass();
    assert Run(rd, fuel, n.body, sc, w) == Some(Out(Raised(PLAIN), w));
    assert !Catches(n.rescues[0], PLAIN) && n.rescues[1..] == [];
    assert ClauseFor(rd, n.rescues, PLAIN) == if rd.Ruby? then NoConstant("Nope") else NoClause;
    assert Attempt(rd, fuel, n, sc, w, false) == End(Out(Raised(if rd.Ruby? then NameError("Nope") else PLAIN), w));
  }

  /** Every `retry` stands in the body of some rescue clause or of a loop. */
  predicate RetryInRescue<S>(n: Node<S>)
    decreases n
  {
    match n
    case Retry => false
    case Body(stmts) => forall i :: 0 <= i < |stmts| ==> RetryInRescue(stmts[i])
    case If(cond, _, thenBody, elseBody) =>
      RetryInRescue(cond) && RetryInRescue(thenBody) && (elseBody.Some? ==> RetryInRescue(elseBody.value))
    case While(cond, _, _, _) => RetryInRescue(cond)
    case Break(value) => RetryInRescue(value)
    case Next(value) => RetryInRescue(value)
    case Return(value) => RetryInRescue(value)
    case Begin(_, body, _, orElse, ensuring) =>
      RetryInRescue(body) && (orElse.Some? ==> RetryInRescue(orElse.value)) &&
      (ensuring.Some? ==> RetryInRescue(ensuring.value))
    case _ => true
  }

  ghost predicate Contained<S>(r: Option<Out<S>>) {
    r.Some? ==> !r.value.o.Retried?
  }

  /** A `retry` never leaves the `begin` whose clause it stands in; neither does one in a loop body. */
  lemma {:induction false} RetryContained<S>(fuel: nat, n: Node<S>, sc: Scope, w: World<S>)
    requires RetryInRescue(n)
    ensures Contained(Run(Code, fuel, n, sc, w))
    decreases fuel, n, 4
  {
    match n
    case Act(_) =>
    case Raise(_) =>
    case Reraise =>
    case Body(stmts) => RetryContainedAll(fuel, stmts, sc, w, Nil);
    case If(cond, unless, thenBody, elseBody) =>
      RetryContained(fuel, cond, sc, w);
      var c := Run(Code, fuel, cond, sc, w);
      if c.Some? && c.value.o.Done? {
        if Truthy(c.value.o.v) != unless {
          RetryContained(fuel, thenBody, sc, c.value.w);
        } else if elseBody.Some? {
          RetryContained(fuel, elseBody.value, sc, c.value.w);
        }
      }
    case While(_, _, _, _) => RetryContainedLoop(fuel, n, sc, w);
    case Break(value) => RetryContained(fuel, value, sc, w);
    case Next(value) => RetryContained(fuel, value, sc, w);
    case Return(value) => RetryContained(fuel, value, sc, w);
    case Begin(id, _, _, _, ensuring) =>
      var w' := if ensuring.None? then w else w.Note(Entered(id));
      RetryContainedAttempts(fuel, n, sc, w', false);
      var r := RunAttempts(Code, fuel, n, sc, w', false);
      if ensuring.Some? && r.Some? {
        RetryContained(fuel, ensuring.value, sc, r.value.w.Note(Ensuring(id)));
      }
  }

  lemma {:induction false} RetryContainedAll<S>(fuel: nat, stmts: seq<Node<S>>, sc: Scope, w: World<S>, last: Value)
    requires forall i :: 0 <= i < |stmts| ==> RetryInRescue(stmts[i])
    ensures Contained(RunAll(Code, fuel, stmts, sc, w, last))
    decreases fuel, stmts, 1
  {
    if stmts == [] {
    } else {
      RetryContained(fuel, stmts[0], sc, w);
      var r := Run(Code, fuel, stmts[0], sc, w);
      if r.Some? && r.value.o.Done? {
        RetryContainedAll(fuel, stmts[1..], sc, r.value.w, r.value.o.v);
      }
    }
  }

  ghost predicate ContainedRound<S>(r: Round<S>) {
    r.End? ==> !r.out.o.Retried?
  }

  lemma RetryContainedTest<S>(fuel: nat, n: Node<S>, sc: Scope, w: World<S>)
    requires n.While? && RetryInRescue(n.cond)
    ensures ContainedRound(TestRound(Code, fuel, n, sc, w))
    decreases fuel, n, 0
  {
    RetryContained(fuel, n.cond, sc, w);
  }

  lemma RetryContainedBody<S>(fuel: nat, n: Node<S>, sc: Scope, w: World<S>)
    requires n.While? && RetryInRescue(n.cond)
    ensures ContainedRound(BodyRound(Code, fuel, n, sc, w))
    decreases fuel, n, 1
  {
    var b := Run(Code, fuel, n.body, sc, w);
    if b.Some? && LoopExit(Code, b.value.o).None? && n.postTest {
      RetryContainedTest(fuel, n, sc, b.value.w);
    }
  }

  lemma {:induction false} RetryContainedLoop<S>(fuel: nat, n: Node<S>, sc: Scope, w: World<S>)
    requires n.While? && RetryInRescue(n.cond)
    ensures Contained(RunLoop(Code, fuel, n, sc, w))
    decreases fuel, n, 3
  {
    if n.postTest {
      RetryContainedBody(fuel, n, sc, w);
    } else {
      RetryContainedTest(fuel, n, sc, w);
      var c := TestRound(Code, fuel, n, sc, w);
      if c.Again? {
        RetryContainedBody(fuel, n, sc, c.w);
      }
    }
    var round := LoopRound(Code, fuel, n, sc, w);
    if round.Again? && fuel > 0 {
      RetryContainedLoop(fuel - 1, n, sc, round.w);
    }
  }

  lemma RetryContainedAttempt<S>(fuel: nat, n: Node<S>, sc: Scope, w: World<S>, rescued: bool)
    requires n.Begin? && RetryInRescue(n)
    ensures ContainedRound(Attempt(Code, fuel, n, sc, w, rescued))
    decreases fuel, n, 2
  {
    RetryContained(fuel, n.body, sc, w);
    var b := Run(Code, fuel, n.body, sc, w);
    if b.Some? && !b.value.o.Raised? && !rescued && n.orElse.Some? {
      RetryContained(fuel, n.orElse.value, sc, b.value.w);
    }
  }

  lemma {:induction false} RetryContainedAttempts<S>(fuel: nat, n: Node<S>, sc: Scope, w: World<S>, rescued: bool)
    requires n.Begin? && RetryInRescue(n)
    ensures Contained(RunAttempts(Code, fuel, n, sc, w, rescued))
    decreases fuel, n, 3
  {
    RetryContainedAttempt(fuel, n, sc, w, rescued);
    var round := Attempt(Code, fuel, n, sc, w, rescued);
    if round.Again? && fuel > 0 {
      RetryContainedAttempts(fuel - 1, n, sc, round.w, true);
    }
  }

  // One while loop, whose parts are run as the code runs them: in Ruby a `retry` of the body leaves the loop.

  function RubyBodyRound<S>(fuel: nat, n: Node<S>, sc: Scope, w: World<S>): Round<S>
    requires n.While?
  {
    var b := Run(Code, fuel, n.body, sc, w);
    if b.Some? && b.value.o.Retried? then End(Out(Retried, b.value.w)) else BodyRound(Code, fuel, n, sc, w)
  }

  function RubyLoopRound<S>(fuel: nat, n: Node<S>, sc: Scope, w: World<S>): Round<S>
    requires n.While?
  {
    if n.postTest then RubyBodyRound(fuel, n, sc, w)
    else
      var c := TestRound(Code, fuel, n, sc, w);
      if c.Again? then RubyBodyRound(fuel, n, sc, c.w) else c
  }

  function RubyLoop<S>(fuel: nat, n: Node<S>, sc: Scope, w: World<S>): Option<Out<S>>
    requires n.While?
    decreases fuel
  {
    match RubyLoopRound(fuel, n, sc, w)
    case Stuck => None
    case End(out) => Some(out)
    case Again(w') => if fuel == 0 then None else RubyLoop(fuel - 1, n, sc, w')
  }

  /** Where the body of the next round starts, if there is one. */
  function BodyStart<S>(fuel: nat, n: Node<S>, sc: Scope, w: World<S>): Round<S>
    requires n.While?
  {
    if n.postTest then Again(w) else TestRound(Code, fuel, n, sc, w)
  }

  /** Some round that the loop reaches has a body that ends in `retry`. */
  predicate LoopRetries<S>(fuel: nat, n: Node<S>, sc: Scope, w: World<S>)
    requires n.While?
    decreases fuel
  {
    var start, round := BodyStart(fuel, n, sc, w), LoopRound(Code, fuel, n, sc, w);
    (start.Again? &&
     var b := Run(Code, fuel, n.body, sc, start.w); b.Some? && b.value.o.Retried?) ||
    (round.Again? && fuel > 0 && LoopRetries(fuel - 1, n, sc, round.w))
  }

  lemma {:induction false} RetriesLeave<S>(fuel: nat, n: Node<S>, sc: Scope, w: World<S>)
    requires n.While? && LoopRetries(fuel, n, sc, w)
    ensures RubyLoop(fuel, n, sc, w).Some? && RubyLoop(fuel, n, sc, w).value.o.Retried?
    decreases fuel
  {
    var start := BodyStart(fuel, n, sc, w);
    var b := Run(Code, fuel, n.body, sc, start.w);
    if b.Some? && b.value.o.Retried? {
      assert RubyLoopRound(fuel, n, sc, w) == End(Out(Retried, b.value.w));
    } else {
      var round := LoopRound(Code, fuel, n, sc, w);
      assert RubyLoopRound(fuel, n, sc, w) == round;
      RetriesLeave(fuel - 1, n, sc, round.w);
    }
  }

  lemma {:induction false} NoRetryNoDifference<S>(fuel: nat, n: Node<S>, sc: Scope, w: World<S>)
    requires n.While? && !LoopRetries(fuel, n, sc, w)
    ensures RunLoop(Code, fuel, n, sc, w) == RubyLoop(fuel, n, sc, w)
    decreases fuel
  {
    var round := LoopRound(Code, fuel, n, sc, w);
    assert RubyLoopRound(fuel, n, sc, w) == round;
    if round.Again? && fuel > 0 {
      NoRetryNoDifference(fuel - 1, n, sc, round.w);
    }
  }

  /** Exactly when the two readings of a loop differ; a `retry` in the condition leaves the loop in both. */
  lemma LoopAgreesIff<S>(fuel: nat, n: Node<S>, sc: Scope, w: World<S>)
    requires n.While? && RetryInRescue(n.cond)
    ensures RunLoop(Code, fuel, n, sc, w) == RubyLoop(fuel, n, sc, w) <==> !LoopRetries(fuel, n, sc, w)
  {
    if LoopRetries(fuel, n, sc, w) {
      RetriesLeave(fuel, n, sc, w);
      RetryContainedLoop(fuel, n, sc, w);
    } else {
      NoRetryNoDifference(fuel, n, sc, w);
    }
  }

  // ---------------------------------------------------------------------------------------------
  // Whole programs: where the code departs from Ruby
  // ---------------------------------------------------------------------------------------------

  /**
    * The run reaches a `begin` that misplaces its else body, a loop body that ends in `retry`, or a class in
    * a rescue clause that does not resolve.
    */
  ghost predicate Departs<S>(fuel: nat, n: Node<S>, sc: Scope, w: World<S>)
    decreases fuel, n, 4
  {
    match n
    case Body(stmts) => DepartsAll(fuel, stmts, sc, w)
    case If(cond, unless, thenBody, elseBody) =>
      var c := Run(Code, fuel, cond, sc, w);
      Departs(fuel, cond, sc, w) ||
      (c.Some? && c.value.o.Done? &&
       if Truthy(c.value.o.v) != unless then Departs(fuel, thenBody, sc, c.value.w)
       else elseBody.Some? && Departs(fuel, elseBody.value, sc, c.value.w))
    case While(_, _, _, _) => DepartsLoop(fuel, n, sc, w)
    case Break(value) => Departs(fuel, value, sc, w)
    case Next(value) => Departs(fuel, value, sc, w)
    case Return(value) => Departs(fuel, value, sc, w)
    case Begin(id, _, _, _, ensuring) =>
      var w' := if ensuring.None? then w else w.Note(Entered(id));
      var r := RunAttempts(Code, fuel, n, sc, w', false);
      DepartsAttempts(fuel, n, sc, w', false) ||
      (ensuring.Some? && r.Some? && Departs(fuel, ensuring.value, sc, r.value.w.Note(Ensuring(id))))
    case _ => false
  }

  ghost predicate DepartsAll<S>(fuel: nat, stmts: seq<Node<S>>, sc: Scope, w: World<S>)
    decreases fuel, stmts, 1
  {
    stmts != [] &&
    var r := Run(Code, fuel, stmts[0], sc, w);
    Departs(fuel, stmts[0], sc, w) || (r.Some? && r.value.o.Done? && DepartsAll(fuel, stmts[1..], sc, r.value.w))
  }

  ghost predicate DepartsBody<S>(fuel: nat, n: Node<S>, sc: Scope, w: World<S>)
    requires n.While?
    decreases fuel, n, 1
  {
    var b := Run(Code, fuel, n.body, sc, w);
    Departs(fuel, n.body, sc, w) ||
    (b.Some? &&
     (b.value.o.Retried? ||
      (LoopExit(Code, b.value.o).None? && n.postTest && Departs(fuel, n.cond, sc, b.value.w))))
  }

  ghost predicate DepartsLoop<S>(fuel: nat, n: Node<S>, sc: Scope, w: World<S>)
    requires n.While?
    decreases fuel, n, 3
  {
    var start, round := BodyStart(fuel, n, sc, w), LoopRound(Code, fuel, n, sc, w);
    (!n.postTest && Departs(fuel, n.cond, sc, w)) ||
    (start.Again? && DepartsBody(fuel, n, sc, start.w)) ||
    (round.Again? && fuel > 0 && DepartsLoop(fuel - 1, n, sc, round.w))
  }

  ghost predicate DepartsClause<S>(fuel: nat, n: Node<S>, e: Exn, w: World<S>)
    requires n.Begin?
    decreases fuel, n, 1
  {
    var i := FirstCatching(n.rescues, e);
    UnknownFirst(n.rescues, e) ||
    (i < |n.rescues| &&
     var clause := n.rescues[i];
     Departs(fuel, clause.body, Scope(Some(e), Some(e)), w.(s := clause.bind(w.s, e))))
  }

  ghost predicate DepartsAttempt<S>(fuel: nat, n: Node<S>, sc: Scope, w: World<S>, rescued: bool)
    requires n.Begin?
    decreases fuel, n, 2
  {
    var b := Run(Code, fuel, n.body, sc, w);
    Departs(fuel, n.body, sc, w) ||
    (b.Some? &&
     if b.value.o.Raised? then DepartsClause(fuel, n, b.value.o.e, b.value.w)
     else n.orElse.Some? &&
          (RunsElse(Code, rescued, b.value.o) != RunsElse(Ruby, rescued, b.value.o) ||
           (RunsElse(Code, rescued, b.value.o) && Departs(fuel, n.orElse.value, sc, b.value.w))))
  }

  ghost predicate DepartsAttempts<S>(fuel: nat, n: Node<S>, sc: Scope, w: World<S>, rescued: bool)
    requires n.Begin?
    decreases fuel, n, 3
  {
    var round := Attempt(Code, fuel, n, sc, w, rescued);
    DepartsAttempt(fuel, n, sc, w, rescued) ||
    (round.Again? && fuel > 0 && DepartsAttempts(fuel - 1, n, sc, round.w, true))
  }

  /** A program that departs nowhere has the meaning Ruby gives it. */
  lemma {:induction false} RubyAgrees<S>(fuel: nat, n: Node<S>, sc: Scope, w: World<S>)
    requires !Departs(fuel, n, sc, w)
    ensures Run(Code, fuel, n, sc, w) == Run(Ruby, fuel, n, sc, w)
    decreases fuel, n, 4
  {
    match n
    case Act(_) =>
    case Raise(_) =>
    case Reraise =>
    case Retry =>
    case Body(stmts) => RubyAgreesAll(fuel, stmts, sc, w, Nil);
    case If(cond, unless, thenBody, elseBody) =>
      RubyAgrees(fuel, cond, sc, w);
      var c := Run(Code, fuel, cond, sc, w);
      if c.Some? && c.value.o.Done? {
        if Truthy(c.value.o.v) != unless {
          RubyAgrees(fuel, thenBody, sc, c.value.w);
        } else if elseBody.Some? {
          RubyAgrees(fuel, elseBody.value, sc, c.value.w);
        }
      }
    case While(_, _, _, _) => RubyAgreesLoop(fuel, n, sc, w);
    case Break(value) => RubyAgrees(fuel, value, sc, w);
    case Next(value) => RubyAgrees(fuel, value, sc, w);
    case Return(value) => RubyAgrees(fuel, value, sc, w);
    case Begin(id, _, _, _, ensuring) =>
      var w' := if ensuring.None? then w else w.Note(Entered(id));
      RubyAgreesAttempts(fuel, n, sc, w', false);
      var r := RunAttempts(Code, fuel, n, sc, w', false);
      if ensuring.Some? && r.Some? {
        RubyAgrees(fuel, ensuring.value, sc, r.value.w.Note(Ensuring(id)));
      }
  }

  lemma {:induction false} RubyAgreesAll<S>(fuel: nat, stmts: seq<Node<S>>, sc: Scope, w: World<S>, last: Value)
    requires !DepartsAll(fuel, stmts, sc, w)
    ensures RunAll(Code, fuel, stmts, sc, w, last) == RunAll(Ruby, fuel, stmts, sc, w, last)
    decreases fuel, stmts, 1
  {
    if stmts == [] {
    } else {
      RubyAgrees(fuel, stmts[0], sc, w);
      var r := Run(Code, fuel, stmts[0], sc, w);
      if r.Some? && r.value.o.Done? {
        RubyAgreesAll(fuel, stmts[1..], sc, r.value.w, r.value.o.v);
      }
    }
  }

  lemma RubyAgreesBody<S>(fuel: nat, n: Node<S>, sc: Scope, w: World<S>)
    requires n.While? && !DepartsBody(fuel, n, sc, w)
    ensures BodyRound(Code, fuel, n, sc, w) == BodyRound(Ruby, fuel, n, sc, w)
    decreases fuel, n, 1
  {
    RubyAgrees(fuel, n.body, sc, w);
    var b := Run(Code, fuel, n.body, sc, w);
    if b.Some? && LoopExit(Code, b.value.o).None? && n.postTest {
      RubyAgrees(fuel, n.cond, sc, b.value.w);
    }
  }

  lemma {:induction false} RubyAgreesLoop<S>(fuel: nat, n: Node<S>, sc: Scope, w: World<S>)
    requires n.While? && !DepartsLoop(fuel, n, sc, w)
    ensures RunLoop(Code, fuel, n, sc, w) == RunLoop(Ruby, fuel, n, sc, w)
    decreases fuel, n, 3
  {
    if !n.postTest {
      RubyAgrees(fuel, n.cond, sc, w);
    }
    var start := BodyStart(fuel, n, sc, w);
    if start.Again? {
      RubyAgreesBody(fuel, n, sc, start.w);
    }
    var round := LoopRound(Code, fuel, n, sc, w);
    assert LoopRound(Ruby, fuel, n, sc, w) == round;
    if round.Again? && fuel > 0 {
      RubyAgreesLoop(fuel - 1, n, sc, round.w);
    }
  }

  lemma RubyAgreesClause<S>(fuel: nat, n: Node<S>, e: Exn, w: World<S>)
    requires n.Begin? && !DepartsClause(fuel, n, e, w)
    ensures CodeClause(n.rescues, e) == RubyClause(n.rescues, e)
    ensures
      var i := FirstCatching(n.rescues, e);
      i < |n.rescues| ==> RescueRound(Code, fuel, n.rescues[i], e, w) == RescueRound(Ruby, fuel, n.rescues[i], e, w)
    decreases fuel, n, 1
  {
    ClauseAgreesIff(n.rescues, e);
    var i := FirstCatching(n.rescues, e);
    if i < |n.rescues| {
      var clause := n.rescues[i];
      RubyAgrees(fuel, clause.body, Scope(Some(e), Some(e)), w.(s := clause.bind(w.s, e)));
    }
  }

  lemma RubyAgreesAttempt<S>(fuel: nat, n: Node<S>, sc: Scope, w: World<S>, rescued: bool)
    requires n.Begin? && !DepartsAttempt(fuel, n, sc, w, rescued)
    ensures Attempt(Code, fuel, n, sc, w, rescued) == Attempt(Ruby, fuel, n, sc, w, rescued)
    decreases fuel, n, 2
  {
    RubyAgrees(fuel, n.body, sc, w);
    var b := Run(Code, fuel, n.body, sc, w);
    if b.Some? {
      if b.value.o.Raised? {
        RubyAgreesClause(fuel, n, b.value.o.e, b.value.w);
      } else if n.orElse.Some? && RunsElse(Code, rescued, b.value.o) {
        RubyAgrees(fuel, n.orElse.value, sc, b.value.w);
      }
    }
  }

  lemma {:induction false} RubyAgreesAttempts<S>(fuel: nat, n: Node<S>, sc: Scope, w: World<S>, rescued: bool)
    requires n.Begin? && !DepartsAttempts(fuel, n, sc, w, rescued)
    ensures RunAttempts(Code, fuel, n, sc, w, rescued) == RunAttempts(Ruby, fuel, n, sc, w, rescued)
    decreases fuel, n, 3
  {
    RubyAgreesAttempt(fuel, n, sc, w, rescued);
    var round := Attempt(Code, fuel, n, sc, w, rescued);
    if round.Again? && fuel > 0 {
      RubyAgreesAttempts(fuel - 1, n, sc, round.w, true);
    }
  }

  /** Ruby's attempts at the `begin` reach a part that departs; whether the else body is misplaced does not count. */
  ghost predicate PartsDepart<S>(fuel: nat, n: Node<S>, sc: Scope, w: World<S>)
    requires n.Begin?
    decreases fuel
  {
    var b, round := Run(Code, fuel, n.body, sc, w), RubyAttempt(fuel, n, sc, w);
    Departs(fuel, n.body, sc, w) ||
    (b.Some? &&
     if b.value.o.Raised? then DepartsClause(fuel, n, b.value.o.e, b.value.w)
     else n.orElse.Some? && b.value.o.Done? && Departs(fuel, n.orElse.value, sc, b.value.w)) ||
    (round.Again? && fuel > 0 && PartsDepart(fuel - 1, n, sc, round.w))
  }

  lemma RubyAttemptIsRuby<S>(fuel: nat, n: Node<S>, sc: Scope, w: World<S>, rescued: bool)
    requires n.Begin? && !PartsDepart(fuel, n, sc, w)
    ensures RubyAttempt(fuel, n, sc, w) == Attempt(Ruby, fuel, n, sc, w, rescued)
  {
    RubyAgrees(fuel, n.body, sc, w);
    var b := Run(Code, fuel, n.body, sc, w);
    if b.Some? {
      if b.value.o.Raised? {
        RubyAgreesClause(fuel, n, b.value.o.e, b.value.w);
      } else if n.orElse.Some? && b.value.o.Done? {
        RubyAgrees(fuel, n.orElse.value, sc, b.value.w);
      }
    }
  }

  /** If its parts depart nowhere, `RubyAttempts` is what Ruby makes of the `begin`. */
  lemma {:induction false} RubyAttemptsAreRuby<S>(fuel: nat, n: Node<S>, sc: Scope, w: World<S>, rescued: bool)
    requires n.Begin? && !PartsDepart(fuel, n, sc, w)
    ensures RubyAttempts(fuel, n, sc, w) == RunAttempts(Ruby, fuel, n, sc, w, rescued)
    decreases fuel
  {
    RubyAttemptIsRuby(fuel, n, sc, w, rescued);
    var round := RubyAttempt(fuel, n, sc, w);
    if round.Again? && fuel > 0 {
      RubyAttemptsAreRuby(fuel - 1, n, sc, round.w, true);
    }
  }

  /** The same for a loop: Ruby's rounds reach a part that departs. */
  ghost predicate LoopPartsDepart<S>(fuel: nat, n: Node<S>, sc: Scope, w: World<S>)
    requires n.While?
    decreases fuel
  {
    var start, round := BodyStart(fuel, n, sc, w), RubyLoopRound(fuel, n, sc, w);
    (!n.postTest && Departs(fuel, n.cond, sc, w)) ||
    (start.Again? &&
     var b := Run(Code, fuel, n.body, sc, start.w);
     Departs(fuel, n.body, sc, start.w) ||
     (b.Some? && LoopExit(Ruby, b.value.o).None? && n.postTest && Departs(fuel, n.cond, sc, b.value.w))) ||
    (round.Again? && fuel > 0 && LoopPartsDepart(fuel - 1, n, sc, round.w))
  }

  lemma RubyLoopRoundIsRuby<S>(fuel: nat, n: Node<S>, sc: Scope, w: World<S>)
    requires n.While? && !LoopPartsDepart(fuel, n, sc, w)
    ensures RubyLoopRound(fuel, n, sc, w) == LoopRound(Ruby, fuel, n, sc, w)
  {
    if !n.postTest {
      RubyAgrees(fuel, n.cond, sc, w);
    }
    var start := BodyStart(fuel, n, sc, w);
    if start.Again? {
      RubyAgrees(fuel, n.body, sc, start.w);
      var b := Run(Code, fuel, n.body, sc, start.w);
      if b.Some? && LoopExit(Ruby, b.value.o).None? && n.postTest {
        RubyAgrees(fuel, n.cond, sc, b.value.w);
        assert TestRound(Code, fuel, n, sc, b.value.w) == TestRound(Ruby, fuel, n, sc, b.value.w);
      }
    }
  }

  lemma {:induction false} RubyLoopIsRuby<S>(fuel: nat, n: Node<S>, sc: Scope, w: World<S>)
    requires n.While? && !LoopPartsDepart(fuel, n, sc, w)
    ensures RubyLoop(fuel, n, sc, w) == RunLoop(Ruby, fuel, n, sc, w)
    decreases fuel
  {
    RubyLoopRoundIsRuby(fuel, n, sc, w);
    var round := RubyLoopRound(fuel, n, sc, w);
    if round.Again? && fuel > 0 {
      RubyLoopIsRuby(fuel - 1, n, sc, round.w);
    }
  }

  /** `while s == 0; s = 1; retry; end` */
  function RetryingLoop(): Node<int> {
    While(Act((s: int, bang) => (s, if s == 0 then Data(1) else Nil)), false, false,
          Body([Act((s: int, bang) => (1, Data(1))), Retry]))
  }

  lemma RetryingLoopRound(rd: Reading, fuel: nat, sc: Scope, w: World<int>)
    ensures LoopRound(rd, fuel, RetryingLoop(), sc, w) ==
              if w.s != 0 then End(Out(Done(Nil), w))
              else if rd.Ruby? then End(Out(Retried, World(1, w.trace))) else Again(World(1, w.trace))
  {
    var n := RetryingLoop();
    var w' := World(1, w.trace);
    assert Run(rd, fuel, n.cond, sc, w) == Some(Out(Done(if w.s == 0 then Data(1) else Nil), w));
    var stmts := n.body.stmts;
    assert Run(rd, fuel, stmts[0], sc, w) == Some(Out(Done(Data(1)), w'));
    assert stmts[1..] == [Retry] && Run(rd, fuel, Retry, sc, w') == Some(Out(Retried, w'));
    assert RunAll(rd, fuel, stmts[1..], sc, w', Data(1)) == Some(Out(Retried, w'));
    assert Run(rd, fuel, n.body, sc, w) == Some(Out(Retried, w'));
  }

  lemma RetryingLoopRuns(rd: Reading, fuel: nat, sc: Scope, trace: seq<Event>)
    requires fuel >= 1
    ensures RunLoop(rd, fuel, RetryingLoop(), sc, World(0, trace)) ==
              Some(Out(if rd.Ruby? then Retried else Done(Nil), World(1, trace)))
  {
    RetryingLoopRound(rd, fuel, sc, World(0, trace));
    RetryingLoopRound(rd, fuel - 1, sc, World(1, trace));
  }

  /** `begin; raise if s == 0; 2; rescue; while s == 0; s = 1; retry; end; end` */
  function RetryInLoop(): Node<int> {
    Begin(0,
          Body([RetryThenElse().body, Act((s: int, bang) => (s, Data(2)))]),
          [Rescue([], (s: int, e) => s, RetryingLoop())],
          None,
          None)
  }

  lemma BodyOfLoopExample(rd: Reading, fuel: nat, sc: Scope, w: World<int>)
    ensures Run(rd, fuel, RetryInLoop().body, sc, w) ==
              Some(if w.s == 0 then Out(Raised(PLAIN), w) else Out(Done(Data(2)), w))
  {
    var stmts := RetryInLoop().body.stmts;
    BodyOfExample(rd, fuel, sc, w);
    assert Run(rd, fuel, stmts[1], sc, w) == Some(Out(Done(Data(2)), w));
    assert stmts[1..] == [stmts[1]];
    assert RunAll(rd, fuel, stmts[1..], sc, w, Nil) == Some(Out(Done(Data(2)), w));
  }

  /** In the code the loop goes on and its value is the result; in Ruby the second attempt completes with 2. */
  lemma RetryStaysInLoop(rd: Reading, fuel: nat, sc: Scope)
    requires fuel >= 1
    ensures Run(rd, fuel, RetryInLoop(), sc, World(0, [])) ==
              Some(Out(Done(if rd.Ruby? then Data(2) else Nil), World(1, [])))
  {
    var n := RetryInLoop();
    var w0, w1 := World(0, []), World(1, []);
    BodyOfLoopExample(rd, fuel, sc, w0);
    BodyOfLoopExample(rd, fuel - 1, sc, w1);
    RetryingLoopRuns(rd, fuel, Scope(Some(PLAIN), Some(PLAIN)), []);
    assert Catches(n.rescues[0], PLAIN) && FirstCatching(n.rescues, PLAIN) == 0;
    assert RescueRound(rd, fuel, n.rescues[0], PLAIN, w0) ==
           if rd.Ruby? then Again(w1) else End(Out(Done(Nil), w1));
    assert Attempt(rd, fuel, n, sc, w0, false) == if rd.Ruby? then Again(w1) else End(Out(Done(Nil), w1));
    if rd.Ruby? {
      assert Attempt(rd, fuel - 1, n, sc, w1, true) == End(Out(Done(Data(2)), w1));
      assert RunAttempts(rd, fuel - 1, n, sc, w1, true) == Some(Out(Done(Data(2)), w1));
    }
  }

  // ---------------------------------------------------------------------------------------------
  // The register machine
  // ---------------------------------------------------------------------------------------------

  /** What `eval_node` returns: a value or a signal. The exception itself is in the registers. */
  datatype Signal =
    | Plain(v: Value)
    | Exception
    | BreakSignal(v: Value)
    | NextSignal(v: Value)
    | ReturnSignal(v: Value)
    | RetrySignal

  function Summary(e: Exn): (msg: string)
    ensures msg != ""
  {
    e.cls + ": " + e.msg
  }

  class Evaluator<S> {
    var store: S
    var currentException: Option<Exn>
    var exceptionClass: string
    var exceptionMsg: string
    var rescueContext: Option<Exn>
    var dollarBang: Option<Exn>
    ghost var trace: seq<Event>

    /** No exception is in flight, so that `raise` is not silenced by its guard. */
    ghost predicate Quiet()
      reads this
    {
      currentException == None && exceptionClass == "" && exceptionMsg == ""
    }

    ghost predicate InFlight(e: Exn)
      reads this
    {
      currentException == Some(e) && exceptionClass == e.cls && exceptionMsg == Summary(e)
    }

    ghost function Registers(): Scope
      reads this
    {
      Scope(rescueContext, dollarBang)
    }

    ghost predicate Reports(r: Signal, o: Outcome)
      reads this
    {
      match o
      case Done(v) => r == Plain(v) && Quiet()
      case Raised(e) => r == Exception && InFlight(e)
      case Broke(v) => r == BreakSignal(v) && Quiet()
      case Nexted(v) => r == NextSignal(v) && Quiet()
      case Returned(v) => r == ReturnSignal(v) && Quiet()
      case Retried => r == RetrySignal && Quiet()
    }

    ghost function Now(): World<S>
      reads this
    {
      World(store, trace)
    }

    /** The machine is where the semantics says it is, and the rescue registers are as they were. */
    ghost predicate Agrees(finished: bool, r: Signal, o: Option<Out<S>>, sc: Scope)
      reads this
    {
      && finished == o.Some?
      && (finished ==> Reports(r, o.value.o) && Now() == o.value.w && Registers() == sc)
    }

    /** Where one round of a loop or of a `begin` has left the machine. */
    ghost predicate AgreesOnRound(finished: bool, r: Signal, again: bool, o: Round<S>, sc: Scope)
      reads this
    {
      match o
      case Stuck => !finished && !again
      case End(out) => !again && Agrees(finished, r, Some(out), sc)
      case Again(w) => finished && again && Quiet() && Now() == w && Registers() == sc
    }

    constructor (initial: S)
      ensures Quiet() && store == initial && Registers() == Scope(None, None) && trace == []
    {
      store := initial;
      currentException, exceptionClass, exceptionMsg := None, "", "";
      rescueContext, dollarBang := None, None;
      trace := [];
    }

    method ClearException()
      modifies `currentException, `exceptionClass, `exceptionMsg
      ensures Quiet()
    {
      currentException, exceptionClass, exceptionMsg := None, "", "";
    }

    /** `eval_raise_value` and `eval_raise_class`: silent while another exception is in flight. */
    method RaiseValue(e: Exn) returns (r: Signal)
      modifies `currentException, `exceptionClass, `exceptionMsg
      ensures r == Exception
      ensures old(exceptionMsg) == "" ==> InFlight(e)
      ensures old(exceptionMsg) != "" ==>
                currentException == old(currentException) && exceptionClass == old(exceptionClass) &&
                exceptionMsg == old(exceptionMsg)
    {
      if exceptionMsg == "" {
        currentException, exceptionClass, exceptionMsg := Some(e), e.cls, Summary(e);
      }
      r := Exception;
    }

    /** The class list of one clause, with the save and restore around a class that does not resolve. */
    method ClauseMatches(clause: Rescue<S>, ghost e: Exn) returns (matched: bool)
      requires InFlight(e)
      modifies `currentException, `exceptionClass, `exceptionMsg
      ensures InFlight(e) && matched == Catches(clause, e)
    {
      if clause.classes == [] {
        return true;
      }
      for i := 0 to |clause.classes|
        invariant InFlight(e)
        invariant forall j :: 0 <= j < i ==> !(clause.classes[j].Known? && IsA(e, clause.classes[j].name))
      {
        var savedException, savedClass := currentException, exceptionClass;
        match clause.classes[i]
        case Unknown(name) =>
          var signal := RaiseValue(NameError(name));
          currentException, exceptionClass := savedException, savedClass;
        case Known(name) =>
          if currentException.Some? && IsA(currentException.value, name) {
            return true;
          }
      }
      return false;
    }

    method FindClause(rescues: seq<Rescue<S>>, ghost e: Exn) returns (i: nat)
      requires InFlight(e)
      modifies `currentException, `exceptionClass, `exceptionMsg
      ensures InFlight(e) && i == FirstCatching(rescues, e)
    {
      i := 0;
      while i < |rescues|
        invariant i <= |rescues| && InFlight(e)
        invariant FirstCatching(rescues, e) == i + FirstCatching(rescues[i..], e)
      {
        var matched := ClauseMatches(rescues[i], e);
        if matched {
          return;
        }
        assert rescues[i..][1..] == rescues[i + 1..];
        i := i + 1;
      }
    }

    method Eval(fuel: nat, n: Node<S>) returns (finished: bool, r: Signal)
      requires Quiet()
      modifies this
      ensures Agrees(finished, r, Run(Code, fuel, n, old(Registers()), old(Now())), old(Registers()))
      decreases fuel, n, 5
    {
      finished := true;
      match n
      case Act(f) =>
        var (s', v) := f(store, dollarBang);
        store := s';
        r := Plain(v);
      case Raise(make) =>
        r := RaiseValue(make(store));
      case Reraise =>
        r := RaiseValue(if rescueContext.Some? then rescueContext.value else PLAIN);
      case Body(stmts) =>
        finished, r := EvalBody(fuel, stmts);
      case If(cond, unless, thenBody, elseBody) =>
        finished, r := Eval(fuel, cond);
        if !finished || !r.Plain? {
          return;
        }
        if Truthy(r.v) != unless {
          finished, r := Eval(fuel, thenBody);
        } else if elseBody.Some? {
          finished, r := Eval(fuel, elseBody.value);
        } else {
          r := Plain(Nil);
        }
      case While(_, _, _, _) =>
        finished, r := EvalLoop(fuel, n);
      case Break(value) =>
        finished, r := Eval(fuel, value);
        if finished && r.Plain? {
          r := BreakSignal(r.v);
        }
      case Next(value) =>
        finished, r := Eval(fuel, value);
        if finished && r.Plain? {
          r := NextSignal(r.v);
        }
      case Return(value) =>
        finished, r := Eval(fuel, value);
        if finished && r.Plain? {
          r := ReturnSignal(r.v);
        }
      case Retry =>
        r := RetrySignal;
      case Begin(_, _, _, _, _) =>
        finished, r := EvalBegin(fuel, n);
    }

    method EvalBody(fuel: nat, stmts: seq<Node<S>>) returns (finished: bool, r: Signal)
      requires Quiet()
      modifies this
      ensures Agrees(finished, r, RunAll(Code, fuel, stmts, old(Registers()), old(Now()), Nil), old(Registers()))
      decreases fuel, stmts, 1
    {
      r := Plain(Nil);
      ghost var goal := RunAll(Code, fuel, stmts, Registers(), Now(), Nil);
      for i := 0 to |stmts|
        invariant Quiet() && r.Plain? && Registers() == old(Registers())
        invariant goal == RunAll(Code, fuel, stmts[i..], Registers(), Now(), r.v)
      {
        assert stmts[i..][0] == stmts[i] && stmts[i..][1..] == stmts[i + 1..];
        finished, r := Eval(fuel, stmts[i]);
        if !finished || !r.Plain? {
          return;
        }
      }
      finished := true;
    }

    /** The condition of a loop; `again` says whether the loop goes on. */
    method EvalTest(fuel: nat, n: Node<S>) returns (finished: bool, r: Signal, again: bool)
      requires n.While? && Quiet()
      modifies this
      ensures AgreesOnRound(finished, r, again, TestRound(Code, fuel, n, old(Registers()), old(Now())),
                            old(Registers()))
      decreases fuel, n, 0
    {
      finished, r := Eval(fuel, n.cond);
      again := false;
      if finished && r.Plain? {
        again := Truthy(r.v) != n.until;
        if !again {
          r := Plain(Nil);
        }
      }
    }

    method EvalLoopBody(fuel: nat, n: Node<S>) returns (finished: bool, r: Signal, again: bool)
      requires n.While? && Quiet()
      modifies this
      ensures AgreesOnRound(finished, r, again, BodyRound(Code, fuel, n, old(Registers()), old(Now())),
                            old(Registers()))
      decreases fuel, n, 1
    {
      again := false;
      finished, r := Eval(fuel, n.body);
      if !finished {
        return;
      }
      if r.BreakSignal? {
        r := Plain(r.v);
        return;
      }
      if r.ReturnSignal? || r.Exception? {
        return;
      }
      again := true;
      if n.postTest {
        finished, r, again := EvalTest(fuel, n);
      }
    }

    method EvalLoopRound(fuel: nat, n: Node<S>) returns (finished: bool, r: Signal, again: bool)
      requires n.While? && Quiet()
      modifies this
      ensures AgreesOnRound(finished, r, again, LoopRound(Code, fuel, n, old(Registers()), old(Now())),
                            old(Registers()))
      decreases fuel, n, 2
    {
      if !n.postTest {
        finished, r, again := EvalTest(fuel, n);
        if !again {
          return;
        }
      }
      finished, r, again := EvalLoopBody(fuel, n);
    }

    method EvalLoop(fuel: nat, n: Node<S>) returns (finished: bool, r: Signal)
      requires n.While? && Quiet()
      modifies this
      ensures Agrees(finished, r, RunLoop(Code, fuel, n, old(Registers()), old(Now())), old(Registers()))
      decreases fuel, n, 3
    {
      var f: nat := fuel;
      while true
        invariant f <= fuel && Quiet() && Registers() == old(Registers())
        invariant RunLoop(Code, fuel, n, Registers(), old(Now())) == RunLoop(Code, f, n, Registers(), Now())
        decreases f
      {
        var again;
        finished, r, again := EvalLoopRound(f, n);
        if !again {
          return;
        }
        if f == 0 {
          finished := false;
          return;
        }
        f := f - 1;
      }
    }

    /** One rescue body, with the registers it sees set up before it and put back after it. */
    method EvalRescue(fuel: nat, clause: Rescue<S>, ghost e: Exn) returns (finished: bool, r: Signal, again: bool)
      requires InFlight(e)
      modifies this
      ensures AgreesOnRound(finished, r, again, RescueRound(Code, fuel, clause, e, old(Now())), old(Registers()))
      decreases fuel, clause, 0
    {
      var rescuedException := currentException.value;
      var previousRescue, previousBang := rescueContext, dollarBang;
      ClearException();
      rescueContext, dollarBang := Some(rescuedException), Some(rescuedException);
      store := clause.bind(store, rescuedException);
      finished, r := Eval(fuel, clause.body);
      rescueContext, dollarBang := previousRescue, previousBang;
      again := finished && r.RetrySignal?;
    }

    method EvalAttempt(fuel: nat, n: Node<S>, rescued: bool) returns (finished: bool, r: Signal, again: bool)
      requires n.Begin? && Quiet()
      modifies this
      ensures AgreesOnRound(finished, r, again, Attempt(Code, fuel, n, old(Registers()), old(Now()), rescued),
                            old(Registers()))
      decreases fuel, n, 2
    {
      again := false;
      ghost var b := Run(Code, fuel, n.body, Registers(), Now());
      finished, r := Eval(fuel, n.body);
      if !finished {
        return;
      }
      if r.Exception? {
        var i := FindClause(n.rescues, b.value.o.e);
        if i < |n.rescues| {
          finished, r, again := EvalRescue(fuel, n.rescues[i], b.value.o.e);
          return;
        }
      }
      if !r.Exception? && !rescued && n.orElse.Some? {
        finished, r := Eval(fuel, n.orElse.value);
      }
    }

    /** The body, the rescue clauses and `else`; the loop is the jump back to `retry_begin`. */
    method EvalAttempts(fuel: nat, n: Node<S>) returns (finished: bool, r: Signal)
      requires n.Begin? && Quiet()
      modifies this
      ensures Agrees(finished, r, RunAttempts(Code, fuel, n, old(Registers()), old(Now()), false), old(Registers()))
      decreases fuel, n, 3
    {
      var f: nat, rescued := fuel, false;
      while true
        invariant f <= fuel && Quiet() && Registers() == old(Registers())
        invariant RunAttempts(Code, fuel, n, Registers(), old(Now()), false) ==
                    RunAttempts(Code, f, n, Registers(), Now(), rescued)
        decreases f
      {
        var again;
        finished, r, again := EvalAttempt(f, n, rescued);
        if !again {
          return;
        }
        if f == 0 {
          finished := false;
          return;
        }
        f, rescued := f - 1, true;
      }
    }

    method EvalBegin(fuel: nat, n: Node<S>) returns (finished: bool, r: Signal)
      requires n.Begin? && Quiet()
      modifies this
      ensures Agrees(finished, r, Run(Code, fuel, n, old(Registers()), old(Now())), old(Registers()))
      decreases fuel, n, 4
    {
      if n.ensuring.None? {
        finished, r := EvalAttempts(fuel, n);
        return;
      }
      trace := trace + [Entered(n.id)];
      finished, r := EvalAttempts(fuel, n);
      if !finished {
        return;
      }
      var savedException, savedClass, savedMsg := currentException, exceptionClass, exceptionMsg;
      ClearException();
      trace := trace + [Ensuring(n.id)];
      var ensureResult: Signal;
      finished, ensureResult := Eval(fuel, n.ensuring.value);
      if !finished {
        return;
      }
      if !ensureResult.Plain? {
        r := ensureResult;
        return;
      }
      if r.Exception? {
        currentException, exceptionClass, exceptionMsg := savedException, savedClass, savedMsg;
      }
    }
  }
}
