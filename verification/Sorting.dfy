/** `Array#sort`, `min` and `max`: an insertion sort in place and two scans, over one comparison. */
module Sorting {
  import opened Options
  import opened Sequences

  /** What `<=>` answers: an integer, or nothing when the two values cannot be compared. */
  type Comparison<!T> = (T, T) -> Option<int>

  datatype Outcome<+T> = Sorted(value: T) | ArgumentError | Nil

  predicate Less<T>(cmp: Comparison<T>, x: T, y: T) {
    var c := cmp(x, y);
    c.Some? && c.value < 0
  }

  predicate Greater<T>(cmp: Comparison<T>, x: T, y: T) {
    var c := cmp(x, y);
    c.Some? && c.value > 0
  }

  /** Neither before the other. */
  ghost predicate Ties<T>(cmp: Comparison<T>, x: T, y: T) {
    !Less(cmp, x, y) && !Less(cmp, y, x)
  }

  /**
    * A strict weak order on the elements of `xs`: any two of them compare, both ways round alike, and
    * "not after" is transitive.
    */
  ghost predicate WeakOrder<T>(cmp: Comparison<T>, xs: seq<T>) {
    && (forall x, y :: x in xs && y in xs ==> cmp(x, y).Some?)
    && (forall x, y :: x in xs && y in xs ==> (Less(cmp, x, y) <==> Greater(cmp, y, x)))
    && (forall x, y, z {:trigger Less(cmp, y, x), Less(cmp, z, y)} :: x in xs && y in xs && z in xs ==>
          !Less(cmp, y, x) && !Less(cmp, z, y) ==> !Less(cmp, z, x))
  }

  ghost predicate Within<T>(part: seq<T>, all: seq<T>) {
    forall i :: 0 <= i < |part| ==> part[i] in all
  }

  lemma NotBothLess<T>(cmp: Comparison<T>, all: seq<T>, x: T, y: T)
    requires WeakOrder(cmp, all) && x in all && y in all && Less(cmp, x, y)
    ensures !Less(cmp, y, x)
  {
    assert Greater(cmp, y, x);
  }

  lemma NotLessThanLess<T>(cmp: Comparison<T>, all: seq<T>, x: T, y: T, z: T)
    requires WeakOrder(cmp, all) && x in all && y in all && z in all && !Less(cmp, y, x) && Less(cmp, y, z)
    ensures Less(cmp, x, z)
  {
  }

  // ---------------------------------------------------------------------------------------------
  // What the insertion sort computes for any comparison
  // ---------------------------------------------------------------------------------------------

  /** Where `key` goes among the first `j` elements, looking from the right; None if a comparison fails. */
  function Position<T>(cmp: Comparison<T>, done: seq<T>, key: T, j: nat): (r: Option<nat>)
    requires j <= |done|
    ensures r.Some? ==> r.value <= j
  {
    if j == 0 then Some(0)
    else if cmp(key, done[j - 1]).None? then None
    else if Less(cmp, key, done[j - 1]) then Position(cmp, done, key, j - 1)
    else Some(j)
  }

  function Insert<T>(cmp: Comparison<T>, done: seq<T>, key: T): (r: Option<seq<T>>)
    ensures r.Some? ==> |r.value| == |done| + 1
  {
    var j := Position(cmp, done, key, |done|);
    if j.None? then None else Some(done[..j.value] + [key] + done[j.value..])
  }

  function SortedSeq<T>(cmp: Comparison<T>, xs: seq<T>): (r: Option<seq<T>>)
    ensures r.Some? ==> |r.value| == |xs|
  {
    if |xs| == 0 then Some(xs)
    else
      var done := SortedSeq(cmp, xs[..|xs| - 1]);
      if done.None? then None else Insert(cmp, done.value, xs[|xs| - 1])
  }

  // ---------------------------------------------------------------------------------------------
  // Order and stability
  // ---------------------------------------------------------------------------------------------

  ghost predicate Ordered<T>(cmp: Comparison<T>, xs: seq<T>) {
    forall i, j :: 0 <= i < j < |xs| ==> !Less(cmp, xs[j], xs[i])
  }

  /** The elements that tie with `x`, in their order. */
  ghost function Class<T>(cmp: Comparison<T>, xs: seq<T>, x: T): seq<T> {
    if |xs| == 0 then []
    else (if Ties(cmp, xs[0], x) then [xs[0]] else []) + Class(cmp, xs[1..], x)
  }

  /** The same elements, and those that tie in the same order. */
  ghost predicate SameClasses<T>(cmp: Comparison<T>, xs: seq<T>, ys: seq<T>) {
    multiset(xs) == multiset(ys) && forall x :: x in xs ==> Class(cmp, xs, x) == Class(cmp, ys, x)
  }

  lemma {:induction false} ClassConcat<T>(cmp: Comparison<T>, xs: seq<T>, ys: seq<T>, x: T)
    ensures Class(cmp, xs + ys, x) == Class(cmp, xs, x) + Class(cmp, ys, x)
  {
    if |xs| == 0 {
      assert xs + ys == ys;
    } else {
      ClassConcat(cmp, xs[1..], ys, x);
      assert (xs + ys)[1..] == xs[1..] + ys;
      ClassHead(cmp, xs + ys, x);
      ClassHead(cmp, xs, x);
      Associate(if Ties(cmp, xs[0], x) then [xs[0]] else [], Class(cmp, xs[1..], x), Class(cmp, ys, x));
    }
  }

  lemma ClassHead<T>(cmp: Comparison<T>, xs: seq<T>, x: T)
    requires |xs| > 0
    ensures Class(cmp, xs, x) == (if Ties(cmp, xs[0], x) then [xs[0]] else []) + Class(cmp, xs[1..], x)
  {
  }

  lemma {:induction false} ClassEmpty<T>(cmp: Comparison<T>, xs: seq<T>, x: T)
    requires forall i :: 0 <= i < |xs| ==> !Ties(cmp, xs[i], x)
    ensures Class(cmp, xs, x) == []
  {
    if |xs| == 0 {
    } else {
      ClassEmpty(cmp, xs[1..], x);
    }
  }

  lemma {:induction false} PositionBounds<T>(cmp: Comparison<T>, all: seq<T>, done: seq<T>, key: T, j: nat)
    requires WeakOrder(cmp, all) && Within(done, all) && key in all && j <= |done|
    ensures
      var p := Position(cmp, done, key, j);
      && p.Some?
      && (forall i :: p.value <= i < j ==> Less(cmp, key, done[i]))
      && (p.value > 0 ==> !Less(cmp, key, done[p.value - 1]))
  {
    if j > 0 {
      assert done[j - 1] in all;
      if Less(cmp, key, done[j - 1]) {
        PositionBounds(cmp, all, done, key, j - 1);
      }
    }
  }

  lemma InsertOrdered<T>(cmp: Comparison<T>, all: seq<T>, done: seq<T>, key: T, p: nat)
    requires WeakOrder(cmp, all) && Within(done, all) && key in all && Ordered(cmp, done) && p <= |done|
    requires forall i :: p <= i < |done| ==> Less(cmp, key, done[i])
    requires p > 0 ==> !Less(cmp, key, done[p - 1])
    ensures Ordered(cmp, done[..p] + [key] + done[p..])
  {
    var inserted := done[..p] + [key] + done[p..];
    forall i, j | 0 <= i < j < |inserted|
      ensures !Less(cmp, inserted[j], inserted[i])
    {
      if j == p {
        if i < p - 1 {
          assert !Less(cmp, done[p - 1], done[i]) && done[p - 1] in all && done[i] in all;
        }
      } else if i == p {
        NotBothLess(cmp, all, key, done[j - 1]);
      }
    }
  }

  /** Passing over larger elements changes no class. */
  lemma InsertSameClass<T>(cmp: Comparison<T>, all: seq<T>, done: seq<T>, key: T, p: nat, x: T)
    requires WeakOrder(cmp, all) && Within(done, all) && key in all && x in all && p <= |done|
    requires forall i :: p <= i < |done| ==> Less(cmp, key, done[i])
    ensures Class(cmp, done[..p] + [key] + done[p..], x) == Class(cmp, done + [key], x)
  {
    var left, right := done[..p], done[p..];
    assert done == left + right;
    assert Class(cmp, right, x) == [] || Class(cmp, [key], x) == [] by {
      if Ties(cmp, key, x) {
        LargerNotInClass(cmp, all, right, key, x);
      } else {
        ClassEmpty(cmp, [key], x);
      }
    }
    ClassConcat(cmp, left + [key], right, x);
    ClassConcat(cmp, left, [key], x);
    ClassConcat(cmp, left + right, [key], x);
    ClassConcat(cmp, left, right, x);
    SwapParts(Class(cmp, left, x), Class(cmp, [key], x), Class(cmp, right, x));
  }

  lemma SwapParts<T>(a: seq<T>, b: seq<T>, c: seq<T>)
    requires b == [] || c == []
    ensures (a + b) + c == (a + c) + b
  {
  }

  lemma LargerNotInClass<T>(cmp: Comparison<T>, all: seq<T>, right: seq<T>, key: T, x: T)
    requires WeakOrder(cmp, all) && Within(right, all) && key in all && x in all
    requires Ties(cmp, key, x) && forall i :: 0 <= i < |right| ==> Less(cmp, key, right[i])
    ensures Class(cmp, right, x) == []
  {
    forall i | 0 <= i < |right|
      ensures !Ties(cmp, right[i], x)
    {
      NotLessThanLess(cmp, all, x, key, right[i]);
    }
    ClassEmpty(cmp, right, x);
  }

  lemma SameElements<T>(xs: seq<T>, ys: seq<T>)
    requires multiset(xs) == multiset(ys)
    ensures |xs| == |ys| && (forall x :: x in xs <==> x in ys) && Within(xs, ys) && Within(ys, xs)
  {
    assert |multiset(xs)| == |xs| && |multiset(ys)| == |ys|;
    assert forall x :: x in xs <==> x in multiset(xs);
    assert forall y :: y in ys <==> y in multiset(ys);
  }

  /** `ys` is `xs` in order, the elements that tie with some `x` of `all` being in the order of `xs`. */
  ghost predicate Arranges<T>(cmp: Comparison<T>, all: seq<T>, xs: seq<T>, ys: seq<T>) {
    Ordered(cmp, ys) && multiset(xs) == multiset(ys) && forall x :: x in all ==> Class(cmp, xs, x) == Class(cmp, ys, x)
  }

  lemma InsertArranges<T>(cmp: Comparison<T>, all: seq<T>, init: seq<T>, done: seq<T>, key: T)
    requires WeakOrder(cmp, all) && Within(init, all) && key in all && Arranges(cmp, all, init, done)
    ensures Insert(cmp, done, key).Some? && Arranges(cmp, all, init + [key], Insert(cmp, done, key).value)
  {
    SameElements(init, done);
    PositionBounds(cmp, all, done, key, |done|);
    var p := Position(cmp, done, key, |done|).value;
    InsertOrdered(cmp, all, done, key, p);
    InsertMultiset(done, key, p);
    forall x | x in all
      ensures Class(cmp, init + [key], x) == Class(cmp, done[..p] + [key] + done[p..], x)
    {
      InsertedClass(cmp, all, init, done, key, p, x);
    }
  }

  lemma {:induction false} SortsPart<T>(cmp: Comparison<T>, all: seq<T>, xs: seq<T>)
    requires WeakOrder(cmp, all) && Within(xs, all)
    ensures SortedSeq(cmp, xs).Some? && Arranges(cmp, all, xs, SortedSeq(cmp, xs).value)
  {
    if |xs| == 0 {
    } else {
      var init, key := xs[..|xs| - 1], xs[|xs| - 1];
      SortsPart(cmp, all, init);
      InsertArranges(cmp, all, init, SortedSeq(cmp, init).value, key);
      SortedMore(cmp, init, key);
      assert xs == init + [key];
    }
  }

  lemma SortedMore<T>(cmp: Comparison<T>, init: seq<T>, key: T)
    ensures
      SortedSeq(cmp, init + [key]) ==
        if SortedSeq(cmp, init).None? then None else Insert(cmp, SortedSeq(cmp, init).value, key)
  {
    assert (init + [key])[..|init|] == init;
  }

  /** Where `done` has the class of `init`, inserting the key keeps it that of `init + [key]`. */
  lemma InsertedClass<T>(cmp: Comparison<T>, all: seq<T>, init: seq<T>, done: seq<T>, key: T, p: nat, x: T)
    requires WeakOrder(cmp, all) && Within(done, all) && key in all && x in all && p <= |done|
    requires Class(cmp, init, x) == Class(cmp, done, x) && forall i :: p <= i < |done| ==> Less(cmp, key, done[i])
    ensures Class(cmp, init + [key], x) == Class(cmp, done[..p] + [key] + done[p..], x)
  {
    InsertSameClass(cmp, all, done, key, p, x);
    ClassConcat(cmp, done, [key], x);
    ClassConcat(cmp, init, [key], x);
  }

  /** Sorting succeeds for a weak order; the result is ordered, stable and a permutation. */
  lemma SortCorrect<T>(cmp: Comparison<T>, xs: seq<T>)
    requires WeakOrder(cmp, xs)
    ensures SortedSeq(cmp, xs).Some?
    ensures
      var ys := SortedSeq(cmp, xs).value;
      Ordered(cmp, ys) && SameClasses(cmp, xs, ys) && multiset(ys) == multiset(xs)
  {
    SortsPart(cmp, xs, xs);
  }

  lemma InsertMultiset<T>(done: seq<T>, key: T, p: nat)
    requires p <= |done|
    ensures multiset(done[..p] + [key] + done[p..]) == multiset(done + [key])
  {
    assert done == done[..p] + done[p..];
  }

  lemma {:induction false} ClassMember<T>(cmp: Comparison<T>, xs: seq<T>, x: T, i: nat)
    requires i < |Class(cmp, xs, x)|
    ensures exists k :: 0 <= k < |xs| && xs[k] == Class(cmp, xs, x)[i]
  {
    var first := if Ties(cmp, xs[0], x) then 1 else 0;
    if i < first {
      assert xs[0] == Class(cmp, xs, x)[i];
    } else {
      ClassMember(cmp, xs[1..], x, i - first);
      var k :| 0 <= k < |xs[1..]| && xs[1..][k] == Class(cmp, xs[1..], x)[i - first];
      assert xs[k + 1] == Class(cmp, xs, x)[i];
    }
  }

  lemma TiesItself<T>(cmp: Comparison<T>, all: seq<T>, x: T)
    requires WeakOrder(cmp, all) && x in all
    ensures Ties(cmp, x, x)
  {
    if Less(cmp, x, x) {
      NotBothLess(cmp, all, x, x);
    }
  }

  /** The heads of two ordered lists with the same classes are the same element. */
  lemma SameHead<T>(cmp: Comparison<T>, ys: seq<T>, zs: seq<T>)
    requires WeakOrder(cmp, ys) && Ordered(cmp, ys) && Ordered(cmp, zs) && SameClasses(cmp, ys, zs) && |ys| > 0
    ensures |zs| > 0 && ys[0] == zs[0]
  {
    SameElements(ys, zs);
    HeadNotAfter(cmp, ys, zs, ys[0]);
    HeadNotAfter(cmp, ys, ys, zs[0]);
    TiesItself(cmp, ys, ys[0]);
    assert Class(cmp, ys, ys[0])[0] == ys[0];
    assert Class(cmp, zs, ys[0])[0] == zs[0];
  }

  lemma HeadNotAfter<T>(cmp: Comparison<T>, all: seq<T>, zs: seq<T>, x: T)
    requires WeakOrder(cmp, all) && Ordered(cmp, zs) && x in zs && x in all
    ensures !Less(cmp, x, zs[0])
  {
    var k :| 0 <= k < |zs| && zs[k] == x;
    if k == 0 {
      TiesItself(cmp, all, x);
    }
  }

  /** A list is fixed by being ordered, by its elements and by the order of those that tie. */
  lemma {:induction false} OrderedUnique<T>(cmp: Comparison<T>, ys: seq<T>, zs: seq<T>)
    requires WeakOrder(cmp, ys) && Ordered(cmp, ys) && Ordered(cmp, zs) && SameClasses(cmp, ys, zs)
    ensures ys == zs
  {
    SameElements(ys, zs);
    if |ys| == 0 {
    } else {
      SameHead(cmp, ys, zs);
      SameTails(cmp, ys, zs);
      WeakWithin(cmp, ys[1..], ys);
      OrderedUnique(cmp, ys[1..], zs[1..]);
      assert ys == [ys[0]] + ys[1..] && zs == [zs[0]] + zs[1..];
    }
  }

  lemma WeakWithin<T>(cmp: Comparison<T>, part: seq<T>, all: seq<T>)
    requires WeakOrder(cmp, all) && Within(part, all)
    ensures WeakOrder(cmp, part)
  {
    assert forall x :: x in part ==> x in all;
  }

  lemma TailElements<T>(ys: seq<T>, zs: seq<T>)
    requires multiset(ys) == multiset(zs) && |ys| > 0 && |zs| > 0 && ys[0] == zs[0]
    ensures multiset(ys[1..]) == multiset(zs[1..])
  {
    assert ys == [ys[0]] + ys[1..] && zs == [zs[0]] + zs[1..];
    assert multiset(ys[1..]) == multiset(ys) - multiset{ys[0]};
    assert multiset(zs[1..]) == multiset(zs) - multiset{ys[0]};
  }

  lemma SameTails<T>(cmp: Comparison<T>, ys: seq<T>, zs: seq<T>)
    requires SameClasses(cmp, ys, zs) && |ys| > 0 && |zs| > 0 && ys[0] == zs[0]
    ensures SameClasses(cmp, ys[1..], zs[1..])
  {
    TailElements(ys, zs);
    forall x | x in ys[1..]
      ensures Class(cmp, ys[1..], x) == Class(cmp, zs[1..], x)
    {
      TailClass(cmp, ys, zs, x);
    }
  }

  lemma TailClass<T>(cmp: Comparison<T>, ys: seq<T>, zs: seq<T>, x: T)
    requires |ys| > 0 && |zs| > 0 && ys[0] == zs[0] && Class(cmp, ys, x) == Class(cmp, zs, x)
    ensures Class(cmp, ys[1..], x) == Class(cmp, zs[1..], x)
  {
    var head := if Ties(cmp, ys[0], x) then [ys[0]] else [];
    CancelPrefix(head, Class(cmp, ys[1..], x), Class(cmp, zs[1..], x));
  }

  lemma CancelPrefix<T>(a: seq<T>, b: seq<T>, c: seq<T>)
    requires a + b == a + c
    ensures b == c
  {
    assert b == (a + b)[|a|..] && c == (a + c)[|a|..];
  }

  /** The sorted list is the only ordered arrangement of the elements in which ties keep their order. */
  lemma SortIsStableSort<T>(cmp: Comparison<T>, xs: seq<T>, ys: seq<T>)
    requires WeakOrder(cmp, xs)
    ensures SortedSeq(cmp, xs) == Some(ys) <==> Ordered(cmp, ys) && SameClasses(cmp, xs, ys)
  {
    SortCorrect(cmp, xs);
    var zs := SortedSeq(cmp, xs).value;
    if Ordered(cmp, ys) && SameClasses(cmp, xs, ys) {
      SameElements(xs, zs);
      SameElements(xs, ys);
      OrderedUnique(cmp, zs, ys);
    }
  }

  // ---------------------------------------------------------------------------------------------
  // sort
  // ---------------------------------------------------------------------------------------------

  lemma {:induction false} SortFails<T>(cmp: Comparison<T>, xs: seq<T>, n: nat)
    requires n <= |xs| && SortedSeq(cmp, xs[..n]).None?
    ensures SortedSeq(cmp, xs).None?
    decreases |xs|
  {
    if n < |xs| {
      assert xs[..|xs| - 1][..n] == xs[..n];
      SortFails(cmp, xs[..|xs| - 1], n);
    } else {
      assert xs[..n] == xs;
    }
  }

  /** What the shifted elements and the key make up. */
  lemma Shifted<T>(done: seq<T>, key: T, now: seq<T>, j: nat)
    requires |now| == |done| + 1 && j <= |done| && now[j] == key
    requires forall k :: 0 <= k < j ==> now[k] == done[k]
    requires forall k :: j < k <= |done| ==> now[k] == done[k - 1]
    ensures now == done[..j] + [key] + done[j..]
  {
  }

  /** One round: the key moves left past larger elements, which shift right, until it finds its place. */
  method InsertInPlace<T>(cmp: Comparison<T>, a: array<T>, i: nat, key: T) returns (ok: bool)
    requires 0 < i < a.Length && a[i] == key
    modifies a
    ensures ok <==> Insert(cmp, old(a[..i]), key).Some?
    ensures ok ==> a[..i + 1] == Insert(cmp, old(a[..i]), key).value
    ensures a[i + 1..] == old(a[i + 1..])
  {
    var j := i;
    ghost var done := a[..i];
    while j > 0
      invariant j <= i
      invariant Position(cmp, done, key, j) == Position(cmp, done, key, i)
      invariant forall k :: 0 <= k < j ==> a[k] == done[k]
      invariant forall k :: j < k <= i ==> a[k] == done[k - 1]
      invariant forall k :: i < k < a.Length ==> a[k] == old(a[k])
    {
      var prev := a[j - 1];
      var c := cmp(key, prev);
      if c.None? {
        return false;
      }
      var less := c.value < 0;
      if !less {
        break;
      }
      a[j] := prev;
      j := j - 1;
    }
    a[j] := key;
    Shifted(done, key, a[..i + 1], j);
    return true;
  }

  /** `sort`: the receiver's elements are copied, then each one is inserted among those before it. */
  method Sort<T>(cmp: Comparison<T>, xs: seq<T>) returns (r: Outcome<seq<T>>)
    ensures r == var s := SortedSeq(cmp, xs); if s.None? then ArgumentError else Sorted(s.value)
  {
    if |xs| == 0 {
      return Sorted([]);
    }
    var a := new T[|xs|](i requires 0 <= i < |xs| => xs[i]);
    assert a[..] == xs;
    SortOne(cmp, xs);
    for i := 1 to |xs|
      invariant SortedSeq(cmp, xs[..i]) == Some(a[..i])
      invariant a[i..] == xs[i..]
    {
      assert a[i] == a[i..][0];
      SortStep(cmp, xs, i);
      ghost var rest := a[i + 1..];
      assert a[i..][1..] == rest && xs[i..][1..] == xs[i + 1..];
      var ok := InsertInPlace(cmp, a, i, a[i]);
      if !ok {
        SortFails(cmp, xs, i + 1);
        return ArgumentError;
      }
    }
    assert xs[..|xs|] == xs && a[..|xs|] == a[..];
    return Sorted(a[..]);
  }

  lemma SortOne<T>(cmp: Comparison<T>, xs: seq<T>)
    requires |xs| > 0
    ensures SortedSeq(cmp, xs[..1]) == Some(xs[..1])
  {
    assert xs[..1][..0] == [];
    var none := xs[..1][..0];
    assert SortedSeq(cmp, none) == Some(none);
    assert none[..0] + [xs[0]] + none[0..] == xs[..1];
  }

  lemma SortStep<T>(cmp: Comparison<T>, xs: seq<T>, i: nat)
    requires i < |xs| && SortedSeq(cmp, xs[..i]).Some?
    ensures SortedSeq(cmp, xs[..i + 1]) == Insert(cmp, SortedSeq(cmp, xs[..i]).value, xs[i])
  {
    assert xs[..i + 1][..i] == xs[..i];
  }

  // ---------------------------------------------------------------------------------------------
  // min and max
  // ---------------------------------------------------------------------------------------------

  /** The scan of `min` and `max`: an element replaces the best so far when it is better. */
  function Scan<T>(better: (T, T) -> bool, xs: seq<T>): (m: T)
    requires |xs| > 0
    ensures m in xs
  {
    var n := |xs| - 1;
    if n == 0 then xs[0]
    else
      var best := Scan(better, xs[..n]);
      if better(xs[n], best) then xs[n] else best
  }

  /** For any comparison: the scan's answer was better than those it replaced, and nothing after it is better. */
  lemma {:induction false} ScanIsUnbeaten<T>(better: (T, T) -> bool, xs: seq<T>) returns (at: nat)
    requires |xs| > 0
    ensures at < |xs| && Scan(better, xs) == xs[at] && forall k :: at < k < |xs| ==> !better(xs[k], xs[at])
    ensures at > 0 ==> better(xs[at], Scan(better, xs[..at]))
  {
    var n := |xs| - 1;
    if n == 0 {
      at := 0;
    } else if better(xs[n], Scan(better, xs[..n])) {
      at := n;
    } else {
      at := ScanIsUnbeaten(better, xs[..n]);
      assert xs[..n][..at] == xs[..at];
      assert forall k :: at < k < n ==> xs[..n][k] == xs[k];
    }
  }

  function IsLess<T>(cmp: Comparison<T>): (T, T) -> bool {
    (x, y) => Less(cmp, x, y)
  }

  function IsGreater<T>(cmp: Comparison<T>): (T, T) -> bool {
    (x, y) => Greater(cmp, x, y)
  }

  lemma ScanMore<T>(better: (T, T) -> bool, xs: seq<T>, i: nat)
    requires 0 < i < |xs|
    ensures
      var best := Scan(better, xs[..i]);
      Scan(better, xs[..i + 1]) == if better(xs[i], best) then xs[i] else best
  {
    assert xs[..i + 1][..i] == xs[..i];
  }

  /** A new first element is one that is strictly before the old one. */
  lemma InsertFirst<T>(cmp: Comparison<T>, all: seq<T>, done: seq<T>, key: T)
    requires WeakOrder(cmp, all) && Within(done, all) && key in all && Ordered(cmp, done) && |done| > 0
    ensures Insert(cmp, done, key).Some?
    ensures Insert(cmp, done, key).value[0] == if Less(cmp, key, done[0]) then key else done[0]
  {
    PositionBounds(cmp, all, done, key, |done|);
    var p := Position(cmp, done, key, |done|).value;
    if p > 1 {
      assert !Less(cmp, done[p - 1], done[0]) && done[p - 1] in all && done[0] in all;
    }
  }

  lemma {:induction false} MinIsFirst<T>(cmp: Comparison<T>, all: seq<T>, xs: seq<T>)
    requires WeakOrder(cmp, all) && Within(xs, all) && |xs| > 0
    ensures SortedSeq(cmp, xs).Some? && SortedSeq(cmp, xs).value[0] == Scan(IsLess(cmp), xs)
  {
    SortsPart(cmp, all, xs);
    var n := |xs| - 1;
    if n == 0 {
      SortOne(cmp, xs);
      assert xs[..1] == xs;
    } else {
      MinIsFirst(cmp, all, xs[..n]);
      SortsPart(cmp, all, xs[..n]);
      var done := SortedSeq(cmp, xs[..n]).value;
      SameElements(xs[..n], done);
      InsertFirst(cmp, all, done, xs[n]);
    }
  }

  /** `min`: what the scan finds; for a weak order the first element of the sorted array. */
  method Min<T>(cmp: Comparison<T>, xs: seq<T>) returns (m: Option<T>)
    ensures m == if |xs| == 0 then None else Some(Scan(IsLess(cmp), xs))
    ensures |xs| > 0 && WeakOrder(cmp, xs) ==>
              SortedSeq(cmp, xs).Some? && m == Some(SortedSeq(cmp, xs).value[0])
  {
    if |xs| == 0 {
      return None;
    }
    var best := xs[0];
    for i := 1 to |xs|
      invariant best == Scan(IsLess(cmp), xs[..i])
    {
      ScanMore(IsLess(cmp), xs, i);
      if Less(cmp, xs[i], best) {
        best := xs[i];
      }
    }
    assert xs[..|xs|] == xs;
    if WeakOrder(cmp, xs) {
      MinIsFirst(cmp, xs, xs);
    }
    return Some(best);
  }

  /** The elements at or before `m`, none of those before it tying with it. */
  ghost predicate FirstOfMax<T>(cmp: Comparison<T>, xs: seq<T>, m: T, at: nat) {
    && at < |xs| && xs[at] == m
    && (forall k :: 0 <= k < |xs| ==> !Less(cmp, m, xs[k]))
    && (forall k :: 0 <= k < at ==> Less(cmp, xs[k], m))
  }

  lemma ClassOfFirst<T>(cmp: Comparison<T>, xs: seq<T>, m: T, at: nat)
    requires FirstOfMax(cmp, xs, m, at) && Ties(cmp, m, m)
    ensures |Class(cmp, xs, m)| > 0 && Class(cmp, xs, m)[0] == m
  {
    var before, from := xs[..at], xs[at..];
    assert xs == before + from && from[0] == m;
    ClassConcat(cmp, before, from, m);
    ClassEmpty(cmp, before, m);
    ClassHead(cmp, from, m);
  }

  lemma ClassOfLast<T>(cmp: Comparison<T>, ys: seq<T>, m: T)
    requires |ys| > 0 && Ties(cmp, ys[|ys| - 1], m)
    ensures |Class(cmp, ys, m)| > 0 && Class(cmp, ys, m)[|Class(cmp, ys, m)| - 1] == ys[|ys| - 1]
  {
    var n := |ys| - 1;
    ClassConcat(cmp, ys[..n], [ys[n]], m);
    assert ys == ys[..n] + [ys[n]];
    assert Class(cmp, [ys[n]], m) == [ys[n]];
  }

  lemma {:induction false} ScanIsFirstMax<T>(cmp: Comparison<T>, all: seq<T>, xs: seq<T>) returns (at: nat)
    requires WeakOrder(cmp, all) && Within(xs, all) && |xs| > 0
    ensures FirstOfMax(cmp, xs, Scan(IsGreater(cmp), xs), at)
  {
    var n := |xs| - 1;
    if n == 0 {
      at := 0;
      TiesItself(cmp, all, xs[0]);
    } else {
      var init, best := xs[..n], Scan(IsGreater(cmp), xs[..n]);
      at := ScanIsFirstMax(cmp, all, init);
      assert forall k :: 0 <= k < n ==> xs[k] == init[k];
      if Greater(cmp, xs[n], best) {
        MaxStep(cmp, all, init, best, xs[n]);
        TiesItself(cmp, all, xs[n]);
        at := n;
      } else {
        assert !Less(cmp, best, xs[n]);
      }
    }
  }

  /** Whatever is strictly after the greatest so far is strictly after everything so far. */
  lemma MaxStep<T>(cmp: Comparison<T>, all: seq<T>, xs: seq<T>, best: T, next: T)
    requires WeakOrder(cmp, all) && Within(xs, all) && best in all && next in all
    requires Greater(cmp, next, best) && forall k :: 0 <= k < |xs| ==> !Less(cmp, best, xs[k])
    ensures forall k :: 0 <= k < |xs| ==> Less(cmp, xs[k], next) && !Less(cmp, next, xs[k])
  {
    forall k | 0 <= k < |xs|
      ensures Less(cmp, xs[k], next) && !Less(cmp, next, xs[k])
    {
      NotLessThanLess(cmp, all, xs[k], best, next);
      NotBothLess(cmp, all, xs[k], next);
    }
  }

  /**
    * The greatest element ties with the last of the sorted array; of all elements that tie with it, it is
    * the first in the array while the sorted array ends with the last of them.
    */
  ghost predicate TiesWithLast<T>(cmp: Comparison<T>, xs: seq<T>, m: T, last: T) {
    var ties := Class(cmp, xs, m);
    Ties(cmp, last, m) && |ties| > 0 && m == ties[0] && last == ties[|ties| - 1]
  }

  lemma LastTiesWithMax<T>(cmp: Comparison<T>, xs: seq<T>, ys: seq<T>, m: T, at: nat)
    requires WeakOrder(cmp, xs) && FirstOfMax(cmp, xs, m, at) && Ordered(cmp, ys) && multiset(xs) == multiset(ys)
    ensures |ys| == |xs| && Ties(cmp, ys[|ys| - 1], m)
  {
    SameElements(xs, ys);
    var last := ys[|ys| - 1];
    var k :| 0 <= k < |ys| && ys[k] == m;
    TiesItself(cmp, xs, last);
    assert !Less(cmp, last, m);
    var i :| 0 <= i < |xs| && xs[i] == last;
    assert !Less(cmp, m, xs[i]);
  }

  lemma MaxIsLast<T>(cmp: Comparison<T>, xs: seq<T>, m: T, at: nat)
    requires WeakOrder(cmp, xs) && FirstOfMax(cmp, xs, m, at)
    ensures SortedSeq(cmp, xs).Some? && TiesWithLast(cmp, xs, m, SortedSeq(cmp, xs).value[|xs| - 1])
  {
    SortCorrect(cmp, xs);
    var ys := SortedSeq(cmp, xs).value;
    LastTiesWithMax(cmp, xs, ys, m, at);
    TiesItself(cmp, xs, m);
    ClassOfFirst(cmp, xs, m, at);
    ClassOfLast(cmp, ys, m);
    assert Class(cmp, xs, m) == Class(cmp, ys, m);
  }

  /** `max`: what the scan finds; for a weak order see `TiesWithLast`. */
  method Max<T>(cmp: Comparison<T>, xs: seq<T>) returns (m: Option<T>)
    ensures m == if |xs| == 0 then None else Some(Scan(IsGreater(cmp), xs))
    ensures m.Some? && WeakOrder(cmp, xs) ==>
              SortedSeq(cmp, xs).Some? && TiesWithLast(cmp, xs, m.value, SortedSeq(cmp, xs).value[|xs| - 1])
  {
    if |xs| == 0 {
      return None;
    }
    var best := xs[0];
    for i := 1 to |xs|
      invariant best == Scan(IsGreater(cmp), xs[..i])
    {
      ScanMore(IsGreater(cmp), xs, i);
      if Greater(cmp, xs[i], best) {
        best := xs[i];
      }
    }
    assert xs[..|xs|] == xs;
    if WeakOrder(cmp, xs) {
      ghost var at := ScanIsFirstMax(cmp, xs, xs);
      MaxIsLast(cmp, xs, best, at);
    }
    return Some(best);
  }

  /** `min(n)`: the first `n` of the sorted array; nil, not an error, when a comparison fails. */
  method MinN<T>(cmp: Comparison<T>, xs: seq<T>, n: int) returns (r: Outcome<seq<T>>)
    ensures
      var s := SortedSeq(cmp, xs);
      r == if s.None? then Nil
           else if n < 0 then ArgumentError
           else Sorted(if n <= |xs| then s.value[..n] else s.value)
  {
    var sorted := Sort(cmp, xs);
    if !sorted.Sorted? {
      return Nil;
    }
    if n < 0 {
      return ArgumentError;
    }
    var count := if n > |sorted.value| then |sorted.value| else n;
    var result := [];
    for i := 0 to count
      invariant result == sorted.value[..i]
    {
      result := result + [sorted.value[i]];
    }
    assert n >= |xs| ==> sorted.value[..count] == sorted.value;
    return Sorted(result);
  }

  ghost function Reversed<T>(s: seq<T>): seq<T> {
    if |s| == 0 then [] else [s[|s| - 1]] + Reversed(s[..|s| - 1])
  }

  lemma {:induction false} ReversedCons<T>(s: seq<T>, i: nat, j: nat)
    requires i < j <= |s|
    ensures Reversed(s[i..j]) == Reversed(s[i + 1..j]) + [s[i]]
    decreases j - i
  {
    assert s[i..j][..j - i - 1] == s[i..j - 1];
    if i + 1 < j {
      assert s[i + 1..j][..j - i - 2] == s[i + 1..j - 1];
      ReversedCons(s, i, j - 1);
    } else {
      assert s[i..j - 1] == [] && s[i + 1..j] == [];
    }
  }

  /** `max(n)`: the last `n` of the sorted array, backwards. */
  method MaxN<T>(cmp: Comparison<T>, xs: seq<T>, n: int) returns (r: Outcome<seq<T>>)
    ensures
      var s := SortedSeq(cmp, xs);
      r == if s.None? then Nil
           else if n < 0 then ArgumentError
           else Sorted(Reversed(if n <= |xs| then s.value[|xs| - n..] else s.value))
  {
    var sorted := Sort(cmp, xs);
    if !sorted.Sorted? {
      return Nil;
    }
    if n < 0 {
      return ArgumentError;
    }
    var len := |sorted.value|;
    var count := if n > len then len else n;
    var result, i := [], len - 1;
    while i >= len - count
      invariant len - count - 1 <= i < len
      invariant result == Reversed(sorted.value[i + 1..len])
    {
      ReversedCons(sorted.value, i, len);
      result := result + [sorted.value[i]];
      i := i - 1;
    }
    assert sorted.value[len - count..len] == sorted.value[len - count..];
    assert n >= len ==> sorted.value[0..] == sorted.value;
    return Sorted(result);
  }

  lemma {:induction false} ReversedAt<T>(s: seq<T>, i: nat)
    requires i < |s|
    ensures |Reversed(s)| == |s| && Reversed(s)[i] == s[|s| - 1 - i]
  {
    if |s| == 1 {
      assert Reversed(s[..0]) == [];
    } else if i > 0 {
      ReversedAt(s[..|s| - 1], i - 1);
    } else {
      ReversedAt(s[..|s| - 1], 0);
    }
  }

  // ---------------------------------------------------------------------------------------------
  // In terms of the answers of the comparison
  // ---------------------------------------------------------------------------------------------

  /** On the elements of `xs` the answers turn round with the arguments, and "at most zero" is transitive. */
  ghost predicate Compares<T>(cmp: Comparison<T>, xs: seq<T>) {
    && (forall x, y :: x in xs && y in xs ==> cmp(x, y).Some?)
    && (forall x, y :: x in xs && y in xs ==> (cmp(x, y).value < 0 <==> cmp(y, x).value > 0))
    && (forall x, y, z {:trigger cmp(x, y), cmp(y, z)} :: x in xs && y in xs && z in xs ==>
          cmp(x, y).value <= 0 && cmp(y, z).value <= 0 ==> cmp(x, z).value <= 0)
  }

  lemma ComparesIsWeakOrder<T>(cmp: Comparison<T>, xs: seq<T>)
    requires Compares(cmp, xs)
    ensures WeakOrder(cmp, xs)
  {
    forall x, y | x in xs && y in xs
      ensures !Less(cmp, y, x) <==> cmp(x, y).value <= 0
    {
    }
  }

  /** The sorted array holds the same elements, none of them greater than a later one. */
  lemma SortAscends<T>(cmp: Comparison<T>, xs: seq<T>) returns (ys: seq<T>)
    requires Compares(cmp, xs)
    ensures SortedSeq(cmp, xs) == Some(ys) && multiset(ys) == multiset(xs)
    ensures forall i, j :: 0 <= i < j < |ys| ==> ys[i] in xs && ys[j] in xs && cmp(ys[i], ys[j]).value <= 0
  {
    ComparesIsWeakOrder(cmp, xs);
    SortCorrect(cmp, xs);
    ys := SortedSeq(cmp, xs).value;
    SameElements(xs, ys);
    forall i, j | 0 <= i < j < |ys|
      ensures cmp(ys[i], ys[j]).value <= 0
    {
      assert ys[i] in xs && ys[j] in xs;
      assert !Less(cmp, ys[j], ys[i]);
    }
  }

  /** `<=>` of two integers. */
  function Difference(): Comparison<int> {
    (x, y) => Some(x - y)
  }

  /** Integers are sorted upwards. */
  ghost predicate Upwards(xs: seq<int>, ys: seq<int>) {
    |ys| == |xs| && multiset(ys) == multiset(xs) && forall i, j :: 0 <= i < j < |ys| ==> ys[i] <= ys[j]
  }

  lemma IntegersAscend(xs: seq<int>) returns (ys: seq<int>)
    ensures Compares(Difference(), xs) && SortedSeq(Difference(), xs) == Some(ys) && Upwards(xs, ys)
  {
    ys := SortAscends(Difference(), xs);
    SameElements(xs, ys);
    forall i, j | 0 <= i < j < |ys|
      ensures ys[i] <= ys[j]
    {
      assert Difference()(ys[i], ys[j]).value <= 0;
    }
  }

  method SortIntegers(xs: seq<int>) returns (ys: seq<int>)
    ensures |ys| == |xs| && multiset(ys) == multiset(xs) && forall i, j :: 0 <= i < j < |ys| ==> ys[i] <= ys[j]
  {
    var r := Sort(Difference(), xs);
    ghost var sorted := IntegersAscend(xs);
    ys := r.value;
  }

  /** `minmax` of integers: the least and the greatest. */
  method MinAndMax(xs: seq<int>) returns (lo: int, hi: int)
    requires |xs| > 0
    ensures lo in xs && hi in xs && forall x :: x in xs ==> lo <= x <= hi
  {
    var least := Min(Difference(), xs);
    var greatest := Max(Difference(), xs);
    lo, hi := least.value, greatest.value;
    ghost var ys := IntegersAscend(xs);
    ComparesIsWeakOrder(Difference(), xs);
    ghost var at := ScanIsFirstMax(Difference(), xs, xs);
    MinIsFirst(Difference(), xs, xs);
    SameElements(xs, ys);
    forall x | x in xs
      ensures lo <= x <= hi
    {
      var k :| 0 <= k < |xs| && xs[k] == x;
      assert !Less(Difference(), hi, xs[k]);
      var i :| 0 <= i < |ys| && ys[i] == x;
    }
  }

  lemma ReversedEnd<T>(s: seq<T>, n: nat, end: seq<T>, r: seq<T>)
    requires n <= |s| && end == s[|s| - n..] && r == Reversed(end)
    ensures |r| == n && forall i :: 0 <= i < n ==> r[i] == s[|s| - 1 - i]
  {
    if n == 0 {
    } else {
      ReversedAt(end, 0);
      forall i | 0 <= i < |end|
        ensures r[i] == s[|s| - 1 - i]
      {
        ReversedAt(end, i);
      }
    }
  }

  /** `min(n)` counts up from the least of some integers, `max(n)` down from the greatest; `ys` has all of them. */
  method LeastAndGreatest(xs: seq<int>, n: nat) returns (ys: seq<int>, least: seq<int>, most: seq<int>)
    requires n <= |xs|
    ensures |ys| == |xs| && multiset(ys) == multiset(xs) && forall i, j :: 0 <= i < j < |ys| ==> ys[i] <= ys[j]
    ensures least == ys[..n]
    ensures |most| == n && forall i :: 0 <= i < n ==> most[i] == ys[|ys| - 1 - i]
  {
    ghost var sorted := IntegersAscend(xs);
    var all := Sort(Difference(), xs);
    var up := MinN(Difference(), xs, n);
    var down := MaxN(Difference(), xs, n);
    ys, least, most := all.value, up.value, down.value;
    ReversedEnd(sorted, n, sorted[|sorted| - n..], most);
  }
}
