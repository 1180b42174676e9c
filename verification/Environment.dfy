/**
  * The environment chain: frames that share their parents, each with a linked list of entries.
  *
  * `Abstract` reads a heap of frames as a `ScopeTree`. Every operation is proved to act on that tree as
  * the corresponding tree operation does, and to keep the list in every frame free of repeated names.
  */
module Environment {
  import opened Options
  import opened ScopeTree

  class Entry<V> {
    const name: string
    var val: V
    var next: Entry?<V>

    constructor (name: string, val: V, next: Entry?<V>)
      ensures this.name == name && this.val == val && this.next == next
    {
      this.name, this.val, this.next := name, val, next;
    }
  }

  class Env<V> {
    var vars: Entry?<V>
    const parent: Env?<V>
    const isDef: bool
    ghost var entries: seq<Entry<V>>
    ghost var cells: set<Entry<V>>
    ghost var contents: map<string, V>
    ghost const depth: nat

    constructor (parent: Env?<V>, isDef: bool)
      ensures this.parent == parent && this.isDef == isDef && Linked()
      ensures vars == null && cells == {} && contents == map[]
      ensures depth == if parent == null then 0 else parent.depth + 1
    {
      this.parent, this.isDef, this.vars := parent, isDef, null;
      this.entries, this.cells, this.contents := [], {}, map[];
      this.depth := if parent == null then 0 else parent.depth + 1;
    }

    /** What follows position `i - 1` in a list. */
    static ghost function At(es: seq<Entry<V>>, i: nat): Entry?<V> {
      if i < |es| then es[i] else null
    }

    /** `es` is the list that starts at `start`. */
    static ghost predicate Chain(start: Entry?<V>, es: seq<Entry<V>>)
      reads es
    {
      && start == At(es, 0)
      && (forall i {:trigger es[i].next} :: 0 <= i < |es| ==> es[i].next == At(es, i + 1))
    }

    /** No name stands in the list twice, and `m` is what the list binds. */
    static ghost predicate Describes(es: seq<Entry<V>>, m: map<string, V>)
      reads es
    {
      && (forall i, j {:trigger es[i].name, es[j].name} :: 0 <= i < j < |es| ==> es[i].name != es[j].name)
      && (forall i {:trigger es[i].name} :: 0 <= i < |es| ==> es[i].name in m && m[es[i].name] == es[i].val)
      && (forall n :: n in m ==> exists i :: 0 <= i < |es| && es[i].name == n)
    }

    ghost predicate Linked()
      reads this, entries
    {
      Chain(vars, entries) && Describes(entries, contents) && forall i :: 0 <= i < |entries| ==> entries[i] in cells
    }

    /** The walk along the list that all operations share; `prev` is what unlinking needs. */
    method Find(name: string) returns (e: Entry?<V>, prev: Entry?<V>, ghost i: nat)
      requires Linked()
      ensures e == null <==> name !in contents
      ensures e != null ==>
                i < |entries| && entries[i] == e && e in cells && e.name == name && e.val == contents[name] &&
                prev == if i == 0 then null else entries[i - 1]
    {
      e, prev, i := vars, null, 0;
      while e != null
        invariant i <= |entries|
        invariant e == At(entries, i)
        invariant prev == if i == 0 then null else entries[i - 1]
        invariant forall j :: 0 <= j < i ==> entries[j].name != name
        decreases |entries| - i
      {
        if e.name == name {
          return;
        }
        assert entries[i].next == At(entries, i + 1);
        prev, e, i := e, e.next, i + 1;
      }
    }

    method Overwrite(e: Entry<V>, val: V, ghost i: nat)
      requires Linked() && i < |entries| && entries[i] == e
      modifies e`val, `contents
      ensures Linked() && contents == old(contents)[e.name := val]
    {
      e.val := val;
      contents := contents[e.name := val];
    }

    static lemma DescribesMore(e: Entry<V>, es: seq<Entry<V>>, m: map<string, V>)
      requires Describes(es, m) && e.name !in m
      ensures Describes([e] + es, m[e.name := e.val])
    {
      var more, m' := [e] + es, m[e.name := e.val];
      forall n | n in m'
        ensures exists i :: 0 <= i < |more| && more[i].name == n
      {
        if n == e.name {
          assert more[0].name == n;
        } else {
          var i :| 0 <= i < |es| && es[i].name == n;
          assert more[i + 1].name == n;
        }
      }
    }

    method Prepend(name: string, val: V) returns (e: Entry<V>)
      requires Linked() && name !in contents
      modifies this
      ensures fresh(e) && Linked() && cells == old(cells) + {e}
      ensures contents == old(contents)[name := val]
    {
      e := new Entry(name, val, vars);
      DescribesMore(e, entries, contents);
      assert Chain(e, [e] + entries);
      vars := e;
      entries, cells := [e] + entries, cells + {e};
      contents := contents[name := val];
    }

    /** What is left of the list without entry `i` describes what is left of the map. */
    static lemma DescribesRest(es: seq<Entry<V>>, m: map<string, V>, i: nat)
      requires Describes(es, m) && i < |es|
      ensures Describes(es[..i] + es[i + 1..], m - {es[i].name})
    {
      var rest, m' := es[..i] + es[i + 1..], m - {es[i].name};
      assert forall j :: 0 <= j < |rest| ==> rest[j] == es[if j < i then j else j + 1];
      forall n | n in m'
        ensures exists j :: 0 <= j < |rest| && rest[j].name == n
      {
        var j :| 0 <= j < |es| && es[j].name == n;
        assert rest[if j < i then j else j - 1].name == n;
      }
    }

    static lemma RestAt(es: seq<Entry<V>>, i: nat, j: nat)
      requires i < |es|
      ensures At(es[..i] + es[i + 1..], j) == At(es, if j < i then j else j + 1)
    {
    }

    /** Once the predecessor of entry `i` points past it, the chain runs through the rest. */
    static lemma Relink(start: Entry?<V>, es: seq<Entry<V>>, i: nat)
      requires i < |es| && start == At(es, if i == 0 then 1 else 0)
      requires forall j :: 0 <= j < |es| ==> es[j].next == At(es, if j + 1 == i then i + 1 else j + 1)
      ensures Chain(start, es[..i] + es[i + 1..])
    {
      var rest := es[..i] + es[i + 1..];
      RestAt(es, i, 0);
      forall j | 0 <= j < |rest|
        ensures rest[j].next == At(rest, j + 1)
      {
        RestAt(es, i, j);
        RestAt(es, i, j + 1);
        assert rest[j] == es[if j < i then j else j + 1];
      }
    }

    /** Makes the predecessor of entry `i`, or the frame itself, point past it. */
    method Bypass(e: Entry<V>, prev: Entry?<V>, ghost i: nat)
      requires Linked() && i < |entries| && entries[i] == e
      requires prev == if i == 0 then null else entries[i - 1]
      modifies `vars, (if prev == null then {} else {prev})`next
      ensures Describes(entries, contents) && vars == At(entries, if i == 0 then 1 else 0)
      ensures forall j :: 0 <= j < |entries| ==> entries[j].next == At(entries, if j + 1 == i then i + 1 else j + 1)
    {
      assert entries[i].next == At(entries, i + 1);
      if prev != null {
        assert forall j :: 0 <= j < |entries| && j + 1 != i ==> entries[j].name != prev.name;
        prev.next := e.next;
      } else {
        vars := e.next;
      }
    }

    method Unlink(e: Entry<V>, prev: Entry?<V>, ghost i: nat)
      requires Linked() && i < |entries| && entries[i] == e
      requires prev == if i == 0 then null else entries[i - 1]
      modifies this, prev
      ensures Linked() && cells == old(cells)
      ensures contents == old(contents) - {e.name}
    {
      Bypass(e, prev, i);
      Relink(vars, entries, i);
      Forget(i);
    }

    /** The ghost half of unlinking. */
    ghost method Forget(i: nat)
      requires i < |entries| && Describes(entries, contents) && Chain(vars, entries[..i] + entries[i + 1..])
      requires forall j :: 0 <= j < |entries| ==> entries[j] in cells
      modifies `entries, `contents
      ensures Linked() && contents == old(contents) - {old(entries[i].name)}
    {
      DescribesRest(entries, contents, i);
      contents := contents - {entries[i].name};
      entries := entries[..i] + entries[i + 1..];
    }
  }

  // ---------------------------------------------------------------------------------------------
  // Reading a heap of frames as a tree of maps
  // ---------------------------------------------------------------------------------------------

  /** The frames and the entries that have been allocated so far. */
  datatype Heap<V> = Heap(frames: set<Env<V>>, cells: set<Entry<V>>)

  ghost predicate Valid<V>(h: Heap<V>)
    reads h.frames, h.cells
  {
    && (forall f :: f in h.frames ==> f.cells <= h.cells)
    && (forall f :: f in h.frames ==> (forall i :: 0 <= i < |f.entries| ==> f.entries[i] in f.cells) && f.Linked())
    && (forall f {:trigger f.parent} :: f in h.frames && f.parent != null ==>
          f.parent in h.frames && f.parent.depth < f.depth)
    && (forall f, g :: f in h.frames && g in h.frames && f != g ==> f.cells !! g.cells)
  }

  ghost function Up<V>(f: Env<V>): Option<Env<V>> {
    if f.parent == null then None else Some(f.parent)
  }

  ghost function View<V>(f: Env<V>): Frame<Env<V>, V>
    reads f
  {
    Frame(f.contents, Up(f), f.isDef, f.depth)
  }

  ghost function Abstract<V>(h: Heap<V>): (t: map<Env<V>, Frame<Env<V>, V>>)
    requires Valid(h)
    reads h.frames, h.cells
    ensures WellFormed(t)
  {
    map f | f in h.frames :: View(f)
  }

  /** `t` is the tree that the heap stands for now. */
  ghost predicate Shows<V>(h: Heap<V>, t: map<Env<V>, Frame<Env<V>, V>>)
    reads h.frames, h.cells
    ensures Shows(h, t) ==> WellFormed(t)
  {
    Valid(h) && t == Abstract(h)
  }

  twostate lemma StillLinked<V>(g: Env<V>)
    requires old(g.Linked()) && unchanged(g) && forall i :: 0 <= i < |g.entries| ==> unchanged(g.entries[i])
    ensures g.Linked()
  {
  }

  /** When one frame and its entries are all that changed, the tree changes at that frame alone. */
  twostate lemma OneFrameValid<V>(h: Heap<V>, new h': Heap<V>, new t: map<Env<V>, Frame<Env<V>, V>>, new f: Env<V>)
    requires old(allocated(t)) && old(allocated(f)) && old(Shows(h, t)) && f in h.frames
    requires h'.frames == h.frames && h.cells <= h'.cells
    requires f.Linked() && f.cells <= h'.cells && (f.cells - old(f.cells)) !! h.cells
    requires forall g :: g in h.frames && g != f ==> unchanged(g)
    requires forall e :: e in h.cells && e !in old(f.cells) ==> unchanged(e)
    ensures Valid(h')
    ensures forall g :: g in h.frames && g != f ==> View(g) == t[g]
  {
    forall g | g in h.frames && g != f
      ensures g.Linked() && g.cells <= h'.cells && View(g) == t[g]
    {
      forall i | 0 <= i < |g.entries|
        ensures unchanged(g.entries[i])
      {
        assert g.entries[i] in old(g.cells) && g.entries[i] in h.cells;
      }
      StillLinked(g);
    }
    forall g, g' | g in h.frames && g' in h.frames && g != g'
      ensures g.cells !! g'.cells
    {
      assert old(g.cells) !! old(g'.cells) && old(g.cells) <= h.cells && old(g'.cells) <= h.cells;
    }
  }

  lemma ShowsAt<V>(h: Heap<V>, t: map<Env<V>, Frame<Env<V>, V>>)
    requires Valid(h) && t.Keys == h.frames
    requires forall g :: g in h.frames ==> View(g) == t[g]
    ensures Shows(h, t)
  {
    assert Abstract(h).Keys == t.Keys;
  }

  twostate lemma OneFrame<V>(h: Heap<V>, new h': Heap<V>, new t: map<Env<V>, Frame<Env<V>, V>>, new f: Env<V>)
    requires old(allocated(t)) && old(allocated(f)) && old(Shows(h, t))
    requires f in h.frames && h'.frames == h.frames && h.cells <= h'.cells
    requires f.Linked() && f.cells <= h'.cells && (f.cells - old(f.cells)) !! h.cells
    requires forall g :: g in h.frames && g != f ==> unchanged(g)
    requires forall e :: e in h.cells && e !in old(f.cells) ==> unchanged(e)
    ensures Shows(h', t[f := t[f].(vars := f.contents)])
  {
    OneFrameValid(h, h', t, f);
    var t' := t[f := t[f].(vars := f.contents)];
    assert View(f) == t'[f];
    ShowsAt(h', t');
  }

  // ---------------------------------------------------------------------------------------------
  // The operations
  // ---------------------------------------------------------------------------------------------

  method EnvNew<V>(parent: Env?<V>, isDef: bool, ghost h: Heap<V>, ghost t: map<Env<V>, Frame<Env<V>, V>>)
    returns (f: Env<V>)
    requires Shows(h, t) && (parent != null ==> parent in h.frames)
    ensures fresh(f) && f.parent == parent && f.depth == if parent == null then 0 else parent.depth + 1
    ensures Shows(h.(frames := h.frames + {f}), t[f := Frame(map[], Up(f), isDef, f.depth)])
  {
    f := new Env(parent, isDef);
  }

  method EnvNearestDef<V>(env: Env<V>, ghost h: Heap<V>, ghost t: map<Env<V>, Frame<Env<V>, V>>) returns (d: Env?<V>)
    requires Shows(h, t) && env in h.frames
    ensures NearestDef(t, env) == if d == null then None else Some(d)
  {
    d := env;
    while d != null
      invariant d != null ==> d in h.frames
      invariant NearestDef(t, env) == if d == null then None else NearestDef(t, d)
      decreases if d == null then 0 else d.depth + 1
    {
      if d.isDef {
        return;
      }
      d := d.parent;
    }
  }

  method EnvGet<V>(env: Env<V>, name: string, ghost h: Heap<V>, ghost t: map<Env<V>, Frame<Env<V>, V>>)
    returns (out: Option<V>)
    requires Shows(h, t) && env in h.frames
    ensures out == Get(t, env, name)
  {
    var sc: Env?<V> := env;
    while sc != null
      invariant sc != null ==> sc in h.frames
      invariant Get(t, env, name) == if sc == null then None else Get(t, sc, name)
      decreases if sc == null then 0 else sc.depth + 1
    {
      var e, _, _ := sc.Find(name);
      if e != null {
        return Some(e.val);
      }
      sc := sc.parent;
    }
    return None;
  }

  method EnvGetOwn<V>(env: Env<V>, name: string, ghost h: Heap<V>, ghost t: map<Env<V>, Frame<Env<V>, V>>)
    returns (out: Option<V>)
    requires Shows(h, t) && env in h.frames
    ensures out == if name in t[env].vars then Some(t[env].vars[name]) else None
  {
    var e, _, _ := env.Find(name);
    out := if e == null then None else Some(e.val);
  }

  /** The loop of `env_update`: the frame that owns the name within the `def` boundary, and its entry. */
  method FindOwner<V>(env: Env<V>, name: string, ghost h: Heap<V>, ghost t: map<Env<V>, Frame<Env<V>, V>>)
    returns (sc: Env?<V>, e: Entry?<V>, ghost i: nat)
    requires Shows(h, t) && env in h.frames
    ensures Owner(t, env, name) == if sc == null then None else Some(sc)
    ensures sc != null ==>
              sc in h.frames && e != null && e in sc.cells && e.name == name && i < |sc.entries| && sc.entries[i] == e
  {
    sc, e, i := env, null, 0;
    while sc != null
      invariant sc != null ==> sc in h.frames
      invariant Owner(t, env, name) == if sc == null then None else Owner(t, sc, name)
      decreases if sc == null then 0 else sc.depth + 1
    {
      var prev;
      e, prev, i := sc.Find(name);
      if e != null {
        return;
      }
      if sc.isDef {
        sc := null;
        return;
      }
      sc := sc.parent;
    }
  }

  method EnvUpdate<V>(env: Env<V>, name: string, val: V, ghost h: Heap<V>, ghost t: map<Env<V>, Frame<Env<V>, V>>)
    returns (found: bool)
    requires Shows(h, t) && env in h.frames
    modifies h.frames, h.cells
    ensures found == Owner(t, env, name).Some?
    ensures Shows(h, if found then Set(t, env, name, val) else t)
    ensures !found ==> unchanged(h.frames) && unchanged(h.cells)
  {
    var sc, e, i := FindOwner(env, name, h, t);
    found := sc != null;
    if found {
      sc.Overwrite(e, val, i);
      OneFrame(h, h, t, sc);
    }
  }

  method EnvSet<V>(env: Env<V>, name: string, val: V, ghost h: Heap<V>, ghost t: map<Env<V>, Frame<Env<V>, V>>)
    returns (ghost h': Heap<V>)
    requires Shows(h, t) && env in h.frames
    modifies h.frames, h.cells
    ensures h'.frames == h.frames && fresh(h'.cells - h.cells)
    ensures Shows(h', Set(t, env, name, val))
  {
    h' := h;
    var found := EnvUpdate(env, name, val, h, t);
    if !found {
      var e := env.Prepend(name, val);
      h' := h.(cells := h.cells + {e});
      OneFrame(h, h', t, env);
    }
  }

  method EnvDefine<V>(env: Env<V>, name: string, val: V, ghost h: Heap<V>, ghost t: map<Env<V>, Frame<Env<V>, V>>)
    returns (ghost h': Heap<V>)
    requires Shows(h, t) && env in h.frames
    modifies h.frames, h.cells
    ensures h'.frames == h.frames && fresh(h'.cells - h.cells)
    ensures Shows(h', Bind(t, env, name, val))
  {
    h' := h;
    var e, _, i := env.Find(name);
    if e != null {
      env.Overwrite(e, val, i);
    } else {
      e := env.Prepend(name, val);
      h' := h.(cells := h.cells + {e});
    }
    OneFrame(h, h', t, env);
  }

  method EnvRemoveOwn<V>(env: Env<V>, name: string, ghost h: Heap<V>, ghost t: map<Env<V>, Frame<Env<V>, V>>)
    returns (found: bool)
    requires Shows(h, t) && env in h.frames
    modifies h.frames, h.cells
    ensures found == (name in t[env].vars)
    ensures Shows(h, Remove(t, env, name))
  {
    var e, prev, i := env.Find(name);
    if e == null {
      assert t[env].vars - {name} == t[env].vars;
      return false;
    }
    env.Unlink(e, prev, i);
    OneFrame(h, h, t, env);
    return true;
  }

  // ---------------------------------------------------------------------------------------------
  // Whole runs
  // ---------------------------------------------------------------------------------------------

  /** The operations that only read. */
  method Answered<V>(op: Op<V>, frames: seq<Env<V>>, ghost h: Heap<V>, ghost t: map<Env<V>, Frame<Env<V>, V>>,
                     ghost u: map<nat, Frame<nat, V>>)
    returns (answer: Answer<V>)
    requires Shows(h, t) && Mirrors(frames, t, u) && Refers(op, |frames|) && (op.Look? || op.LookOwn?)
    ensures answer == AnswerTo(op, |frames|, u)
  {
    assert MirrorsAt(frames, t, u, op.at);
    var v;
    if op.Look? {
      MirrorGet(frames, t, u, op.at, op.name);
      v := EnvGet(frames[op.at], op.name, h, t);
    } else {
      v := EnvGetOwn(frames[op.at], op.name, h, t);
    }
    answer := Value(v);
  }

  /** A numbered frame is on the heap, at the depth that the numbered tree says. */
  lemma OnHeap<V>(frames: seq<Env<V>>, h: Heap<V>, t: map<Env<V>, Frame<Env<V>, V>>, u: map<nat, Frame<nat, V>>, i: nat)
    requires Shows(h, t) && Mirrors(frames, t, u) && i < |frames|
    ensures frames[i] in h.frames && frames[i].depth == u[i].depth
  {
    assert MirrorsAt(frames, t, u, i) && t[frames[i]] == View(frames[i]);
  }

  method MakeFrame<V>(up: Option<nat>, isDef: bool, frames: seq<Env<V>>, ghost h: Heap<V>,
                      ghost t: map<Env<V>, Frame<Env<V>, V>>, ghost u: map<nat, Frame<nat, V>>)
    returns (f: Env<V>, ghost h': Heap<V>, ghost t': map<Env<V>, Frame<Env<V>, V>>)
    requires Shows(h, t) && Mirrors(frames, t, u) && Refers<V>(Make(up, isDef), |frames|)
    ensures fresh(f) && h' == h.(frames := h.frames + {f}) && Shows(h', t')
    ensures Mirrors(frames + [f], t', Step(Make(up, isDef), |frames|, u))
  {
    var parent: Env?<V> := null;
    ghost var fr: Frame<nat, V> := Frame(map[], up, isDef, if up.None? then 0 else u[up.value].depth + 1);
    if up.Some? {
      OnHeap(frames, h, t, u, up.value);
      parent := frames[up.value];
    }
    f := EnvNew(parent, isDef, h, t);
    assert f !in h.frames;
    h', t' := h.(frames := h.frames + {f}), t[f := Frame(map[], Up(f), isDef, f.depth)];
    MirrorNew(frames, t, u, f, fr, t');
  }

  lemma MirrorNew<V>(frames: seq<Env<V>>, t: map<Env<V>, Frame<Env<V>, V>>, u: map<nat, Frame<nat, V>>, f: Env<V>,
                     fr: Frame<nat, V>, t': map<Env<V>, Frame<Env<V>, V>>)
    requires Mirrors(frames, t, u) && f !in t && Refers<V>(Make(fr.parent, fr.isDef), |frames|) && fr.vars == map[]
    requires fr.depth == f.depth == if fr.parent.None? then 0 else u[fr.parent.value].depth + 1
    requires Up(f) == Named(frames, fr.parent) && t' == t[f := Frame(map[], Up(f), fr.isDef, f.depth)]
    ensures Mirrors(frames + [f], t', Step(Make(fr.parent, fr.isDef), |frames|, u))
  {
    MirrorMake(frames, t, u, f, fr);
  }

  method AssignIn<V>(at: nat, name: string, val: V, frames: seq<Env<V>>, ghost h: Heap<V>,
                     ghost t: map<Env<V>, Frame<Env<V>, V>>, ghost u: map<nat, Frame<nat, V>>)
    returns (ghost h': Heap<V>, ghost t': map<Env<V>, Frame<Env<V>, V>>)
    requires Shows(h, t) && Mirrors(frames, t, u) && at < |frames|
    modifies h.frames, h.cells
    ensures h'.frames == h.frames && fresh(h'.cells - h.cells) && Shows(h', t')
    ensures Mirrors(frames, t', Set(u, at, name, val))
  {
    OnHeap(frames, h, t, u, at);
    MirrorSet(frames, t, u, at, name, val);
    t' := Set(t, frames[at], name, val);
    h' := EnvSet(frames[at], name, val, h, t);
  }

  method DefineIn<V>(at: nat, name: string, val: V, frames: seq<Env<V>>, ghost h: Heap<V>,
                     ghost t: map<Env<V>, Frame<Env<V>, V>>, ghost u: map<nat, Frame<nat, V>>)
    returns (ghost h': Heap<V>, ghost t': map<Env<V>, Frame<Env<V>, V>>)
    requires Shows(h, t) && Mirrors(frames, t, u) && at < |frames|
    modifies h.frames, h.cells
    ensures h'.frames == h.frames && fresh(h'.cells - h.cells) && Shows(h', t')
    ensures Mirrors(frames, t', Bind(u, at, name, val))
  {
    OnHeap(frames, h, t, u, at);
    MirrorBind(frames, t, u, at, name, val);
    t' := Bind(t, frames[at], name, val);
    h' := EnvDefine(frames[at], name, val, h, t);
  }

  /** The operations that need the name to be bound. */
  method Change<V>(op: Op<V>, frames: seq<Env<V>>, ghost h: Heap<V>, ghost t: map<Env<V>, Frame<Env<V>, V>>,
                   ghost u: map<nat, Frame<nat, V>>)
    returns (found: bool, ghost t': map<Env<V>, Frame<Env<V>, V>>)
    requires Shows(h, t) && Mirrors(frames, t, u) && Refers(op, |frames|) && (op.Update? || op.Drop?)
    modifies h.frames, h.cells
    ensures Shows(h, t') && Mirrors(frames, t', Step(op, |frames|, u)) && Hit(found) == AnswerTo(op, |frames|, u)
  {
    var env := frames[op.at];
    OnHeap(frames, h, t, u, op.at);
    if op.Update? {
      MirrorOwner(frames, t, u, op.at, op.name);
      MirrorSet(frames, t, u, op.at, op.name, op.val);
      found := EnvUpdate(env, op.name, op.val, h, t);
      t' := if found then Set(t, env, op.name, op.val) else t;
    } else {
      MirrorRemove(frames, t, u, op.at, op.name);
      t' := Remove(t, env, op.name);
      found := EnvRemoveOwn(env, op.name, h, t);
    }
  }

  /** One operation on frames that are numbered in the order in which they were made. */
  method Perform<V>(op: Op<V>, frames: seq<Env<V>>, ghost h: Heap<V>, ghost t: map<Env<V>, Frame<Env<V>, V>>,
                    ghost u: map<nat, Frame<nat, V>>)
    returns (frames': seq<Env<V>>, answer: Answer<V>, ghost h': Heap<V>, ghost t': map<Env<V>, Frame<Env<V>, V>>)
    requires Shows(h, t) && Mirrors(frames, t, u) && Refers(op, |frames|)
    modifies h.frames, h.cells
    ensures fresh(h'.frames - h.frames) && fresh(h'.cells - h.cells)
    ensures Shows(h', t') && |frames'| == |frames| + if op.Make? then 1 else 0
    ensures Mirrors(frames', t', Step(op, |frames|, u)) && answer == AnswerTo(op, |frames|, u)
  {
    frames', answer, h', t' := frames, Fine, h, t;
    if op.Make? {
      var f;
      f, h', t' := MakeFrame(op.parent, op.isDef, frames, h, t, u);
      frames' := frames + [f];
    } else if op.Look? || op.LookOwn? {
      answer := Answered(op, frames, h, t, u);
    } else if op.Assign? {
      h', t' := AssignIn(op.at, op.name, op.val, frames, h, t, u);
    } else if op.Define? {
      h', t' := DefineIn(op.at, op.name, op.val, frames, h, t, u);
    } else {
      var found;
      found, t' := Change(op, frames, h, t, u);
      answer := Hit(found);
    }
  }

  /** Any list of operations from nothing: the heap shows the tree of the run and gives its answers. */
  method Execute<V>(ops: seq<Op<V>>)
    returns (frames: seq<Env<V>>, answers: seq<Answer<V>>, ghost h: Heap<V>, ghost t: map<Env<V>, Frame<Env<V>, V>>)
    requires Sensible(ops)
    ensures fresh(h.frames) && fresh(h.cells)
    ensures Shows(h, t) && |frames| == Made(ops) && Mirrors(frames, t, RunAll(ops).tree)
    ensures answers == RunAll(ops).answers
  {
    if |ops| == 0 {
      frames, answers, h, t := [], [], Heap({}, {}), map[];
    } else {
      var n := |ops| - 1;
      frames, answers, h, t := Execute(ops[..n]);
      var answer;
      frames, answer, h, t := Perform(ops[n], frames, h, t, RunAll(ops[..n]).tree);
      answers := answers + [answer];
    }
  }
}
