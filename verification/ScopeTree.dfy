/**
  * Environments as values: a tree of maps with hard `def` boundaries, and the laws its operations obey.
  * `Environment` proves that the linked frames on the heap behave like this.
  */
module ScopeTree {
  import opened Options

  /** `depth` is the length of the chain above a frame; it only serves to show that walks end. */
  datatype Frame<Id, V> = Frame(vars: map<string, V>, parent: Option<Id>, isDef: bool, depth: nat)

  ghost predicate WellFormed<Id, V>(t: map<Id, Frame<Id, V>>) {
    forall id {:trigger t[id].parent} :: id in t && t[id].parent.Some? ==>
      t[id].parent.value in t && t[t[id].parent.value].depth < t[id].depth
  }

  /** Reading walks the whole chain. */
  ghost function Get<Id, V>(t: map<Id, Frame<Id, V>>, id: Id, name: string): Option<V>
    requires WellFormed(t) && id in t
    decreases t[id].depth
  {
    if name in t[id].vars then Some(t[id].vars[name])
    else if t[id].parent.None? then None
    else Get(t, t[id].parent.value, name)
  }

  /** The frame that reading takes the value from. */
  ghost function Holder<Id, V>(t: map<Id, Frame<Id, V>>, id: Id, name: string): (r: Option<Id>)
    requires WellFormed(t) && id in t
    ensures r.Some? ==> r.value in t && name in t[r.value].vars
    decreases t[id].depth
  {
    if name in t[id].vars then Some(id)
    else if t[id].parent.None? then None
    else Holder(t, t[id].parent.value, name)
  }

  /** Assigning looks for the name no further than the nearest `def` frame. */
  ghost function Owner<Id, V>(t: map<Id, Frame<Id, V>>, id: Id, name: string): (r: Option<Id>)
    requires WellFormed(t) && id in t
    ensures r.Some? ==> r.value in t && name in t[r.value].vars && InScope(t, id, r.value)
    decreases t[id].depth
  {
    if name in t[id].vars then Some(id)
    else if t[id].isDef || t[id].parent.None? then None
    else Owner(t, t[id].parent.value, name)
  }

  /** `f` is on the chain from `id` up to and including the nearest `def` frame. */
  ghost predicate InScope<Id, V>(t: map<Id, Frame<Id, V>>, id: Id, f: Id)
    requires WellFormed(t) && id in t
    decreases t[id].depth
  {
    f == id || (!t[id].isDef && t[id].parent.Some? && InScope(t, t[id].parent.value, f))
  }

  ghost function NearestDef<Id, V>(t: map<Id, Frame<Id, V>>, id: Id): (r: Option<Id>)
    requires WellFormed(t) && id in t
    ensures r.Some? ==> r.value in t && t[r.value].isDef
    decreases t[id].depth
  {
    if t[id].isDef then Some(id)
    else if t[id].parent.None? then None
    else NearestDef(t, t[id].parent.value)
  }

  ghost function Bind<Id, V>(t: map<Id, Frame<Id, V>>, id: Id, name: string, v: V): (t': map<Id, Frame<Id, V>>)
    requires id in t
    ensures WellFormed(t) ==> WellFormed(t')
  {
    t[id := t[id].(vars := t[id].vars[name := v])]
  }

  /** The frame an assignment writes to. */
  ghost function Target<Id, V>(t: map<Id, Frame<Id, V>>, id: Id, name: string): (f: Id)
    requires WellFormed(t) && id in t
    ensures f in t
  {
    if Owner(t, id, name).Some? then Owner(t, id, name).value else id
  }

  ghost function Set<Id, V>(t: map<Id, Frame<Id, V>>, id: Id, name: string, v: V): (t': map<Id, Frame<Id, V>>)
    requires WellFormed(t) && id in t
    ensures WellFormed(t')
  {
    Bind(t, Target(t, id, name), name, v)
  }

  ghost function Remove<Id, V>(t: map<Id, Frame<Id, V>>, id: Id, name: string): (t': map<Id, Frame<Id, V>>)
    requires id in t
    ensures WellFormed(t) ==> WellFormed(t')
  {
    t[id := t[id].(vars := t[id].vars - {name})]
  }

  // ---------------------------------------------------------------------------------------------
  // Laws
  // ---------------------------------------------------------------------------------------------

  lemma {:induction false} BindGet<Id, V>(t: map<Id, Frame<Id, V>>, f: Id, name: string, v: V, id: Id, other: string)
    requires WellFormed(t) && f in t && id in t
    ensures other != name ==> Get(Bind(t, f, name, v), id, other) == Get(t, id, other)
    ensures Get(Bind(t, f, name, v), id, name) ==
            if Holder(Bind(t, f, name, v), id, name) == Some(f) then Some(v) else Get(t, id, name)
    decreases t[id].depth
  {
    if t[id].parent.Some? {
      BindGet(t, f, name, v, t[id].parent.value, other);
    }
  }

  lemma {:induction false} OwnerHolds<Id, V>(t: map<Id, Frame<Id, V>>, id: Id, name: string)
    requires WellFormed(t) && id in t
    ensures Owner(t, id, name).Some? ==> Holder(t, id, name) == Owner(t, id, name)
    decreases t[id].depth
  {
    if t[id].parent.Some? {
      OwnerHolds(t, t[id].parent.value, name);
    }
  }

  lemma {:induction false} BindKeepsHolder<Id, V>(t: map<Id, Frame<Id, V>>, f: Id, name: string, v: V, id: Id)
    requires WellFormed(t) && f in t && id in t
    requires Holder(t, id, name) == Some(f) || f == id
    ensures Holder(Bind(t, f, name, v), id, name) == Some(f)
    decreases t[id].depth
  {
    if name !in t[id].vars && f != id {
      BindKeepsHolder(t, f, name, v, t[id].parent.value);
    }
  }

  /** What an assignment changes, for every frame and every name: exactly the readers whose holder is the target. */
  lemma SetGet<Id, V>(t: map<Id, Frame<Id, V>>, id: Id, name: string, v: V, reader: Id, other: string)
    requires WellFormed(t) && id in t && reader in t
    ensures Get(Set(t, id, name, v), id, name) == Some(v)
    ensures other != name ==> Get(Set(t, id, name, v), reader, other) == Get(t, reader, other)
    ensures Get(Set(t, id, name, v), reader, name) ==
            if Holder(Set(t, id, name, v), reader, name) == Some(Target(t, id, name)) then Some(v)
            else Get(t, reader, name)
  {
    var f := Target(t, id, name);
    OwnerHolds(t, id, name);
    BindKeepsHolder(t, f, name, v, id);
    BindGet(t, f, name, v, id, other);
    BindGet(t, f, name, v, reader, other);
  }

  /** An assignment touches one frame, that frame is in scope, and no frame above the nearest `def` changes. */
  lemma SetStaysInScope<Id, V>(t: map<Id, Frame<Id, V>>, id: Id, name: string, v: V, f: Id)
    requires WellFormed(t) && id in t && f in t
    ensures Set(t, id, name, v)[f] != t[f] ==> f == Target(t, id, name) && InScope(t, id, f)
    ensures Set(t, id, name, v)[f].parent == t[f].parent && Set(t, id, name, v)[f].isDef == t[f].isDef
  {
  }

  /** `path` climbs from its first frame, one parent at a time. */
  ghost predicate Climbs<Id, V>(t: map<Id, Frame<Id, V>>, path: seq<Id>) {
    && |path| > 0 && (forall i :: 0 <= i < |path| ==> path[i] in t)
    && forall i :: 0 <= i < |path| - 1 ==> t[path[i]].parent == Some(path[i + 1])
  }

  /** Reading gives the value of the first frame on the way up that has the name, across `def` frames. */
  lemma {:induction false} ReadsFirst<Id, V>(t: map<Id, Frame<Id, V>>, path: seq<Id>, name: string)
    requires WellFormed(t) && Climbs(t, path) && forall i :: 0 <= i < |path| - 1 ==> name !in t[path[i]].vars
    ensures
      var last := t[path[|path| - 1]];
      && (name in last.vars ==> Get(t, path[0], name) == Some(last.vars[name]))
      && (name !in last.vars && last.parent.None? ==> Get(t, path[0], name) == None)
    decreases |path|
  {
    if |path| > 1 {
      assert t[path[0]].parent == Some(path[1]) && name !in t[path[0]].vars;
      ReadsFirst(t, path[1..], name);
    }
  }

  lemma {:induction false} OwnerOnPath<Id, V>(t: map<Id, Frame<Id, V>>, path: seq<Id>, name: string)
    requires WellFormed(t) && Climbs(t, path)
    requires forall i :: 0 <= i < |path| - 1 ==> name !in t[path[i]].vars && !t[path[i]].isDef
    ensures
      var last := t[path[|path| - 1]];
      && (name in last.vars ==> Owner(t, path[0], name) == Some(path[|path| - 1]))
      && (name !in last.vars && (last.isDef || last.parent.None?) ==> Owner(t, path[0], name) == None)
    decreases |path|
  {
    if |path| > 1 {
      assert t[path[0]].parent == Some(path[1]) && name !in t[path[0]].vars && !t[path[0]].isDef;
      OwnerOnPath(t, path[1..], name);
    }
  }

  /**
    * Assigning changes the first frame on the way up that has the name; when there is none up to a `def` frame
    * or the root, the frame it starts from. No other frame changes.
    */
  lemma AssignsFirst<Id, V>(t: map<Id, Frame<Id, V>>, path: seq<Id>, name: string, v: V)
    requires WellFormed(t) && Climbs(t, path)
    requires forall i :: 0 <= i < |path| - 1 ==> name !in t[path[i]].vars && !t[path[i]].isDef
    ensures
      var id, f := path[0], path[|path| - 1];
      && (name in t[f].vars ==> Set(t, id, name, v) == t[f := t[f].(vars := t[f].vars[name := v])])
      && (name !in t[f].vars && (t[f].isDef || t[f].parent.None?) ==>
            Set(t, id, name, v) == t[id := t[id].(vars := t[id].vars[name := v])])
  {
    OwnerOnPath(t, path, name);
  }

  /** `f` is on the chain from `id` to the root. */
  ghost predicate Ancestor<Id, V>(t: map<Id, Frame<Id, V>>, id: Id, f: Id)
    requires WellFormed(t) && id in t
    decreases t[id].depth
  {
    f == id || (t[id].parent.Some? && Ancestor(t, t[id].parent.value, f))
  }

  lemma {:induction false} AncestorsAreHigher<Id, V>(t: map<Id, Frame<Id, V>>, id: Id, f: Id)
    requires WellFormed(t) && id in t && f in t && Ancestor(t, id, f)
    ensures f == id || t[f].depth < t[id].depth
    decreases t[id].depth
  {
    if f == id {
    } else {
      AncestorsAreHigher(t, t[id].parent.value, f);
    }
  }

  /** The scope of a frame is its chain up to and including the nearest `def` frame: no frame more, none less. */
  lemma {:induction false} ScopeIsChainToDef<Id, V>(t: map<Id, Frame<Id, V>>, id: Id, f: Id)
    requires WellFormed(t) && id in t && f in t
    ensures
      var def := NearestDef(t, id);
      InScope(t, id, f) <==> Ancestor(t, id, f) && (def.None? || t[def.value].depth <= t[f].depth)
    decreases t[id].depth
  {
    if t[id].isDef || t[id].parent.None? {
      if Ancestor(t, id, f) {
        AncestorsAreHigher(t, id, f);
      }
    } else {
      ScopeIsChainToDef(t, t[id].parent.value, f);
      if NearestDef(t, id).Some? {
        NearestDefAbove(t, id);
      }
    }
  }

  lemma {:induction false} ScopeEndsAtDef<Id, V>(t: map<Id, Frame<Id, V>>, id: Id, f: Id)
    requires WellFormed(t) && id in t && f in t && InScope(t, id, f)
    ensures f == id || t[f].depth < t[id].depth
    ensures NearestDef(t, id).Some? ==>
              f == NearestDef(t, id).value || (!t[f].isDef && t[NearestDef(t, id).value].depth < t[f].depth)
    decreases t[id].depth
  {
    if t[id].isDef || t[id].parent.None? {
    } else if f == id {
      if NearestDef(t, id).Some? {
        NearestDefAbove(t, id);
      }
    } else {
      ScopeEndsAtDef(t, t[id].parent.value, f);
    }
  }

  lemma {:induction false} NearestDefAbove<Id, V>(t: map<Id, Frame<Id, V>>, id: Id)
    requires WellFormed(t) && id in t && NearestDef(t, id).Some?
    ensures
      var d := NearestDef(t, id).value;
      d in t && t[d].isDef && InScope(t, id, d) && (d == id || t[d].depth < t[id].depth)
    decreases t[id].depth
  {
    if !t[id].isDef {
      NearestDefAbove(t, t[id].parent.value);
    }
  }

  /** A variable of an enclosing method is read, but an assignment to its name makes a new local one. */
  lemma DefBarrier<Id, V>(t: map<Id, Frame<Id, V>>, id: Id, name: string, v: V, outer: Id)
    requires WellFormed(t) && id in t && outer in t
    requires Owner(t, id, name).None? && Holder(t, id, name) == Some(outer)
    ensures Get(t, id, name) == Some(t[outer].vars[name])
    ensures !InScope(t, id, outer)
    ensures Set(t, id, name, v)[outer] == t[outer] && Set(t, id, name, v)[id].vars == t[id].vars[name := v]
    ensures Get(Set(t, id, name, v), outer, name) == Get(t, outer, name)
  {
    HolderHasName(t, id, name);
    if InScope(t, id, outer) {
      ScopeHasNone(t, id, name, outer);
    }
  }

  lemma {:induction false} HolderHasName<Id, V>(t: map<Id, Frame<Id, V>>, id: Id, name: string)
    requires WellFormed(t) && id in t && Holder(t, id, name).Some?
    ensures
      var h := Holder(t, id, name).value;
      h in t && name in t[h].vars && Get(t, id, name) == Some(t[h].vars[name])
    decreases t[id].depth
  {
    if name !in t[id].vars {
      HolderHasName(t, t[id].parent.value, name);
    }
  }

  lemma {:induction false} ScopeHasNone<Id, V>(t: map<Id, Frame<Id, V>>, id: Id, name: string, f: Id)
    requires WellFormed(t) && id in t && f in t && Owner(t, id, name).None? && InScope(t, id, f)
    ensures name !in t[f].vars
    decreases t[id].depth
  {
    if f != id {
      ScopeHasNone(t, t[id].parent.value, name, f);
    }
  }

  lemma SetTwice<Id, V>(t: map<Id, Frame<Id, V>>, id: Id, name: string, v: V, w: V)
    requires WellFormed(t) && id in t
    ensures Set(Set(t, id, name, v), id, name, w) == Set(t, id, name, w)
  {
    var f := Target(t, id, name);
    OwnerAfterBind(t, f, name, v, id, name);
    assert t[f].vars[name := v][name := w] == t[f].vars[name := w];
  }

  /** Binding another name moves no owner; binding the same name in the target keeps the target. */
  lemma {:induction false} OwnerAfterBind<Id, V>(t: map<Id, Frame<Id, V>>, f: Id, name: string, v: V, id: Id,
                                                 other: string)
    requires WellFormed(t) && f in t && id in t
    ensures other != name ==> Owner(Bind(t, f, name, v), id, other) == Owner(t, id, other)
    ensures f == Target(t, id, name) ==> Owner(Bind(t, f, name, v), id, name) == Some(f)
    decreases t[id].depth
  {
    if name !in t[id].vars || other !in t[id].vars {
      if !t[id].isDef && t[id].parent.Some? {
        OwnerAfterBind(t, f, name, v, t[id].parent.value, other);
      }
    }
  }

  lemma BindsCommute<Id, V>(t: map<Id, Frame<Id, V>>, f: Id, name: string, v: V, f': Id, name': string, v': V)
    requires f in t && f' in t && name != name'
    ensures Bind(Bind(t, f, name, v), f', name', v') == Bind(Bind(t, f', name', v'), f, name, v)
  {
    assert t[f].vars[name := v][name' := v'] == t[f].vars[name' := v'][name := v];
  }

  /** Assignments to different names commute, from whatever frames they are made. */
  lemma SetsCommute<Id, V>(t: map<Id, Frame<Id, V>>, id: Id, name: string, v: V, id': Id, name': string, v': V)
    requires WellFormed(t) && id in t && id' in t && name != name'
    ensures Set(Set(t, id, name, v), id', name', v') == Set(Set(t, id', name', v'), id, name, v)
  {
    var f, f' := Target(t, id, name), Target(t, id', name');
    OwnerAfterBind(t, f, name, v, id', name');
    OwnerAfterBind(t, f', name', v', id, name);
    BindsCommute(t, f, name, v, f', name', v');
  }

  /** Removing a name from a frame uncovers what the frames above it bind, for every reader. */
  lemma {:induction false} RemoveUncovers<Id, V>(t: map<Id, Frame<Id, V>>, f: Id, name: string, id: Id, other: string)
    requires WellFormed(t) && f in t && id in t
    ensures other != name ==> Get(Remove(t, f, name), id, other) == Get(t, id, other)
    ensures Holder(t, id, name) != Some(f) ==> Get(Remove(t, f, name), id, name) == Get(t, id, name)
    ensures Holder(t, id, name) == Some(f) ==>
              Get(Remove(t, f, name), id, name) ==
              if t[f].parent.None? then None else Get(t, t[f].parent.value, name)
    decreases t[id].depth
  {
    if t[id].parent.Some? {
      RemoveUncovers(t, f, name, t[id].parent.value, other);
      if id == f {
        AboveUnaffected(t, f, name, t[id].parent.value);
      }
    }
  }

  lemma {:induction false} AboveUnaffected<Id, V>(t: map<Id, Frame<Id, V>>, f: Id, name: string, id: Id)
    requires WellFormed(t) && f in t && id in t && t[id].depth < t[f].depth
    ensures Get(Remove(t, f, name), id, name) == Get(t, id, name)
    decreases t[id].depth
  {
    if t[id].parent.Some? {
      AboveUnaffected(t, f, name, t[id].parent.value);
    }
  }

  /** A definition in a frame that lacks the name is undone by removing it. */
  lemma DefineRemove<Id, V>(t: map<Id, Frame<Id, V>>, id: Id, name: string, v: V)
    requires id in t && name !in t[id].vars
    ensures Remove(Bind(t, id, name, v), id, name) == t
  {
    assert t[id].vars[name := v] - {name} == t[id].vars;
  }

  // ---------------------------------------------------------------------------------------------
  // Whole runs, with the frames numbered in the order in which they are made
  // ---------------------------------------------------------------------------------------------

  datatype Op<V> =
    | Make(parent: Option<nat>, isDef: bool)
    | Look(at: nat, name: string)
    | LookOwn(at: nat, name: string)
    | Update(at: nat, name: string, val: V)
    | Assign(at: nat, name: string, val: V)
    | Define(at: nat, name: string, val: V)
    | Drop(at: nat, name: string)

  datatype Answer<V> = Fine | Value(v: Option<V>) | Hit(found: bool)

  /** The operation only names frames among the first `n`. */
  predicate Refers<V>(op: Op<V>, n: nat) {
    if op.Make? then op.parent.Some? ==> op.parent.value < n else op.at < n
  }

  function Made<V>(ops: seq<Op<V>>): nat {
    if |ops| == 0 then 0 else Made(ops[..|ops| - 1]) + if ops[|ops| - 1].Make? then 1 else 0
  }

  /** Every operation names frames that have been made before it. */
  predicate Sensible<V>(ops: seq<Op<V>>) {
    |ops| == 0 || (Sensible(ops[..|ops| - 1]) && Refers(ops[|ops| - 1], Made(ops[..|ops| - 1])))
  }

  ghost predicate Numbered<V>(u: map<nat, Frame<nat, V>>, n: nat) {
    WellFormed(u) && forall i: nat :: i in u <==> i < n
  }

  datatype Run<V> = Run(tree: map<nat, Frame<nat, V>>, answers: seq<Answer<V>>)

  ghost function Step<V>(op: Op<V>, n: nat, u: map<nat, Frame<nat, V>>): (u': map<nat, Frame<nat, V>>)
    requires Numbered(u, n) && Refers(op, n)
    ensures Numbered(u', if op.Make? then n + 1 else n)
  {
    match op
    case Make(parent, isDef) =>
      u[n := Frame(map[], parent, isDef, if parent.None? then 0 else u[parent.value].depth + 1)]
    case Look(_, _) => u
    case LookOwn(_, _) => u
    case Update(at, name, val) => if Owner(u, at, name).Some? then Set(u, at, name, val) else u
    case Assign(at, name, val) => Set(u, at, name, val)
    case Define(at, name, val) => Bind(u, at, name, val)
    case Drop(at, name) => Remove(u, at, name)
  }

  ghost function AnswerTo<V>(op: Op<V>, n: nat, u: map<nat, Frame<nat, V>>): Answer<V>
    requires Numbered(u, n) && Refers(op, n)
  {
    match op
    case Look(at, name) => Value(Get(u, at, name))
    case LookOwn(at, name) => Value(if name in u[at].vars then Some(u[at].vars[name]) else None)
    case Update(at, name, _) => Hit(Owner(u, at, name).Some?)
    case Drop(at, name) => Hit(name in u[at].vars)
    case _ => Fine
  }

  /** What a list of operations makes of nothing, and what it answers. */
  ghost function RunAll<V>(ops: seq<Op<V>>): (r: Run<V>)
    requires Sensible(ops)
    ensures Numbered(r.tree, Made(ops)) && |r.answers| == |ops|
  {
    if |ops| == 0 then Run(map[], [])
    else
      var before, op, n := RunAll(ops[..|ops| - 1]), ops[|ops| - 1], Made(ops[..|ops| - 1]);
      Run(Step(op, n, before.tree), before.answers + [AnswerTo(op, n, before.tree)])
  }

  /** What an operation makes of `n` frames and what it answers. */
  ghost predicate Does<V>(op: Op<V>, n: nat, u: map<nat, Frame<nat, V>>, u': map<nat, Frame<nat, V>>, answer: Answer<V>)
    requires Numbered(u, n) && Refers(op, n)
  {
    match op
    case Make(parent, isDef) => n in u' && u' == u[n := Frame(map[], parent, isDef, u'[n].depth)] && answer == Fine
    case Look(at, name) => u' == u && answer == Value(Get(u, at, name))
    case LookOwn(at, name) =>
      u' == u && answer == Value(if name in u[at].vars then Some(u[at].vars[name]) else None)
    case Update(at, name, val) =>
      if Owner(u, at, name).None? then u' == u && answer == Hit(false)
      else u' == Set(u, at, name, val) && answer == Hit(true)
    case Assign(at, name, val) => u' == Set(u, at, name, val) && answer == Fine
    case Define(at, name, val) => u' == u[at := u[at].(vars := u[at].vars[name := val])] && answer == Fine
    case Drop(at, name) =>
      u' == u[at := u[at].(vars := u[at].vars - {name})] && answer == Hit(name in u[at].vars)
  }

  lemma StepDoes<V>(op: Op<V>, n: nat, u: map<nat, Frame<nat, V>>)
    requires Numbered(u, n) && Refers(op, n)
    ensures Does(op, n, u, Step(op, n, u), AnswerTo(op, n, u))
  {
  }

  lemma OneMore<V>(ops: seq<Op<V>>, op: Op<V>)
    requires Sensible(ops) && Refers(op, Made(ops))
    ensures Sensible(ops + [op]) && Made(ops + [op]) == Made(ops) + if op.Make? then 1 else 0
    ensures RunAll(ops + [op]).answers[..|ops|] == RunAll(ops).answers
    ensures Does(op, Made(ops), RunAll(ops).tree, RunAll(ops + [op]).tree, RunAll(ops + [op]).answers[|ops|])
  {
    StepDoes(op, Made(ops), RunAll(ops).tree);
    assert (ops + [op])[..|ops|] == ops;
  }

  /** A frame that is not above `id` does not matter to it. */
  lemma {:induction false} NotAbove<Id, V>(t: map<Id, Frame<Id, V>>, f: Id, fr: Frame<Id, V>, id: Id, name: string)
    requires WellFormed(t) && WellFormed(t[f := fr]) && id in t && !Ancestor(t, id, f)
    ensures Get(t[f := fr], id, name) == Get(t, id, name)
    ensures Owner(t[f := fr], id, name) == Owner(t, id, name)
    decreases t[id].depth
  {
    if t[id].parent.Some? {
      NotAbove(t, f, fr, t[id].parent.value, name);
    }
  }

  lemma {:induction false} NewIsNotAbove<Id, V>(t: map<Id, Frame<Id, V>>, f: Id, id: Id)
    requires WellFormed(t) && id in t && f !in t
    ensures !Ancestor(t, id, f)
    decreases t[id].depth
  {
    if t[id].parent.Some? {
      NewIsNotAbove(t, f, t[id].parent.value);
    }
  }

  /** A new frame below `at` and an assignment in it. */
  function Nested<V>(ops: seq<Op<V>>, at: nat, isDef: bool, name: string, v: V): seq<Op<V>> {
    ops + [Make(Some(at), isDef)] + [Assign(Made(ops), name, v)]
  }

  /** A block assigns the variables around it: what it assigned is read outside of it. */
  lemma BlockWrites<V>(ops: seq<Op<V>>, at: nat, name: string, v: V)
    requires Sensible(ops) && at < Made(ops) && Owner(RunAll(ops).tree, at, name).Some?
    ensures Sensible(Nested(ops, at, false, name, v) + [Look(at, name)])
    ensures RunAll(Nested(ops, at, false, name, v) + [Look(at, name)]).answers[|ops| + 2] == Value(Some(v))
  {
    var u, n := RunAll(ops).tree, Made(ops);
    OneMore(ops, Make(Some(at), false));
    var u1 := RunAll(ops + [Make(Some(at), false)]).tree;
    OneMore(ops + [Make(Some(at), false)], Assign(n, name, v));
    OneMore(Nested(ops, at, false, name, v), Look(at, name));
    NewIsNotAbove(u, n, at);
    NotAbove(u, n, u1[n], at, name);
    var f := Owner(u, at, name).value;
    assert Owner(u1, n, name) == Owner(u1, at, name) == Some(f);
    OwnerHolds(u1, at, name);
    BindKeepsHolder(u1, f, name, v, at);
    BindGet(u1, f, name, v, at, name);
  }

  /** A method does not: what it assigned is read in it and nowhere above it. */
  lemma MethodHides<V>(ops: seq<Op<V>>, at: nat, name: string, v: V)
    requires Sensible(ops) && at < Made(ops)
    ensures Sensible(Nested(ops, at, true, name, v) + [Look(at, name)])
    ensures RunAll(Nested(ops, at, true, name, v) + [Look(at, name)]).answers[|ops| + 2] ==
            Value(Get(RunAll(ops).tree, at, name))
    ensures Sensible(Nested(ops, at, true, name, v) + [Look(Made(ops), name)])
    ensures RunAll(Nested(ops, at, true, name, v) + [Look(Made(ops), name)]).answers[|ops| + 2] == Value(Some(v))
  {
    var u, n := RunAll(ops).tree, Made(ops);
    OneMore(ops, Make(Some(at), true));
    var u1 := RunAll(ops + [Make(Some(at), true)]).tree;
    OneMore(ops + [Make(Some(at), true)], Assign(n, name, v));
    OneMore(Nested(ops, at, true, name, v), Look(at, name));
    OneMore(Nested(ops, at, true, name, v), Look(n, name));
    NewIsNotAbove(u, n, at);
    NotAbove(u, n, u1[n], at, name);
    assert Target(u1, n, name) == n;
    SetGet(u1, n, name, v, n, name);
    if Ancestor(u1, at, n) {
      AncestorsAreHigher(u1, at, n);
      assert false;
    }
    NotAbove(u1, n, Set(u1, n, name, v)[n], at, name);
    assert Set(u1, n, name, v) == u1[n := Set(u1, n, name, v)[n]];
  }

  // The names of the frames do not matter.

  function Named<Id>(ids: seq<Id>, o: Option<nat>): Option<Id>
    requires o.Some? ==> o.value < |ids|
  {
    if o.None? then None else Some(ids[o.value])
  }

  /** Frame `i` of `u` is called `ids[i]` in `t`. */
  ghost predicate MirrorsAt<Id, V>(ids: seq<Id>, t: map<Id, Frame<Id, V>>, u: map<nat, Frame<nat, V>>, i: nat) {
    && i < |ids| && i in u && ids[i] in t && (u[i].parent.Some? ==> u[i].parent.value < |ids|)
    && t[ids[i]] == Frame(u[i].vars, Named(ids, u[i].parent), u[i].isDef, u[i].depth)
  }

  /** `t` is `u` with the frames called `ids`. */
  ghost predicate Mirrors<Id, V>(ids: seq<Id>, t: map<Id, Frame<Id, V>>, u: map<nat, Frame<nat, V>>) {
    && Numbered(u, |ids|) && WellFormed(t)
    && (forall i, j :: 0 <= i < j < |ids| ==> ids[i] != ids[j])
    && (forall id :: id in t ==> id in ids) && (forall id :: id in ids ==> id in t)
    && (forall i: nat :: i < |ids| ==> MirrorsAt(ids, t, u, i))
  }

  lemma {:induction false} MirrorGet<Id, V>(ids: seq<Id>, t: map<Id, Frame<Id, V>>, u: map<nat, Frame<nat, V>>,
                                           i: nat, name: string)
    requires Mirrors(ids, t, u) && i < |ids|
    ensures Get(t, ids[i], name) == Get(u, i, name)
    decreases u[i].depth
  {
    assert MirrorsAt(ids, t, u, i);
    if name !in u[i].vars && u[i].parent.Some? {
      MirrorGet(ids, t, u, u[i].parent.value, name);
    }
  }

  lemma {:induction false} MirrorOwner<Id, V>(ids: seq<Id>, t: map<Id, Frame<Id, V>>, u: map<nat, Frame<nat, V>>,
                                             i: nat, name: string)
    requires Mirrors(ids, t, u) && i < |ids|
    ensures Owner(t, ids[i], name) == Named(ids, Owner(u, i, name))
    decreases u[i].depth
  {
    assert MirrorsAt(ids, t, u, i);
    if name !in u[i].vars && !u[i].isDef && u[i].parent.Some? {
      MirrorOwner(ids, t, u, u[i].parent.value, name);
    }
  }

  lemma MirrorVars<Id, V>(ids: seq<Id>, t: map<Id, Frame<Id, V>>, u: map<nat, Frame<nat, V>>, i: nat,
                          vars: map<string, V>)
    requires Mirrors(ids, t, u) && i < |ids|
    ensures Mirrors(ids, t[ids[i] := t[ids[i]].(vars := vars)], u[i := u[i].(vars := vars)])
  {
    assert MirrorsAt(ids, t, u, i);
    var t', u' := t[ids[i] := t[ids[i]].(vars := vars)], u[i := u[i].(vars := vars)];
    forall j: nat | j < |ids|
      ensures MirrorsAt(ids, t', u', j)
    {
      assert MirrorsAt(ids, t, u, j);
    }
    assert Numbered(u', |ids|);
  }

  lemma MirrorBind<Id, V>(ids: seq<Id>, t: map<Id, Frame<Id, V>>, u: map<nat, Frame<nat, V>>, i: nat, name: string,
                          v: V)
    requires Mirrors(ids, t, u) && i < |ids|
    ensures Mirrors(ids, Bind(t, ids[i], name, v), Bind(u, i, name, v))
  {
    assert MirrorsAt(ids, t, u, i);
    MirrorVars(ids, t, u, i, u[i].vars[name := v]);
  }

  lemma MirrorRemove<Id, V>(ids: seq<Id>, t: map<Id, Frame<Id, V>>, u: map<nat, Frame<nat, V>>, i: nat, name: string)
    requires Mirrors(ids, t, u) && i < |ids|
    ensures Mirrors(ids, Remove(t, ids[i], name), Remove(u, i, name))
    ensures name in t[ids[i]].vars <==> name in u[i].vars
  {
    assert MirrorsAt(ids, t, u, i);
    MirrorVars(ids, t, u, i, u[i].vars - {name});
  }

  lemma MirrorSet<Id, V>(ids: seq<Id>, t: map<Id, Frame<Id, V>>, u: map<nat, Frame<nat, V>>, i: nat, name: string, v: V)
    requires Mirrors(ids, t, u) && i < |ids|
    ensures Mirrors(ids, Set(t, ids[i], name, v), Set(u, i, name, v))
  {
    MirrorOwner(ids, t, u, i, name);
    MirrorBind(ids, t, u, Target(u, i, name), name, v);
  }

  lemma MirrorMake<Id, V>(ids: seq<Id>, t: map<Id, Frame<Id, V>>, u: map<nat, Frame<nat, V>>, id: Id,
                          fr: Frame<nat, V>)
    requires Mirrors(ids, t, u) && id !in t
    requires fr.parent.Some? ==> fr.parent.value < |ids| && u[fr.parent.value].depth < fr.depth
    ensures Mirrors(ids + [id], t[id := Frame(fr.vars, Named(ids, fr.parent), fr.isDef, fr.depth)], u[|ids| := fr])
  {
    var more, u' := ids + [id], u[|ids| := fr];
    var t' := t[id := Frame(fr.vars, Named(ids, fr.parent), fr.isDef, fr.depth)];
    forall j: nat | j < |more|
      ensures MirrorsAt(more, t', u', j)
    {
      if j < |ids| {
        assert MirrorsAt(ids, t, u, j);
      }
    }
    if fr.parent.Some? {
      assert MirrorsAt(ids, t, u, fr.parent.value);
    }
    NumberedMore(u, |ids|, fr);
    MakeWellFormed(t, id, t'[id]);
    forall i, j | 0 <= i < j < |more|
      ensures more[i] != more[j]
    {
      assert MirrorsAt(ids, t, u, i);
    }
  }

  lemma NumberedMore<V>(u: map<nat, Frame<nat, V>>, n: nat, fr: Frame<nat, V>)
    requires Numbered(u, n) && (fr.parent.Some? ==> fr.parent.value < n && u[fr.parent.value].depth < fr.depth)
    ensures Numbered(u[n := fr], n + 1)
  {
    MakeWellFormed(u, n, fr);
  }

  lemma MakeWellFormed<Id, V>(t: map<Id, Frame<Id, V>>, id: Id, fr: Frame<Id, V>)
    requires WellFormed(t) && id !in t
    requires fr.parent.Some? ==> fr.parent.value in t && t[fr.parent.value].depth < fr.depth
    ensures WellFormed(t[id := fr])
  {
  }
}
