/**
  * `bsearch` over an array and over an integer range. A block is the function that gives its answer
  * for the element at an index (array) or for an integer (range).
  */
module BinarySearch {
  import opened Arithmetic

  /** A number is only looked at for its sign; a NaN goes the way of a negative number. */
  datatype Answer = Number(sign: int) | Boolean(b: bool) | NilAnswer | Other

  datatype Outcome = Found(at: int) | NotFound | TypeError

  predicate BoolLike(a: Answer) {
    a.Boolean? || a.NilAnswer?
  }

  predicate Sat(a: Answer) {
    a.Boolean? && a.b
  }

  /** The answer is of the kind that the mode chosen by the first answer expects. */
  predicate Fits(first: Answer, a: Answer) {
    if first.Number? then a.Number? else BoolLike(first) && BoolLike(a)
  }

  /** Once true, true from there on. */
  ghost predicate Rising(f: int -> Answer, lo: int, hi: int) {
    forall i, j :: lo <= i < j < hi && Sat(f(i)) ==> Sat(f(j))
  }

  /** Numbers that are first positive, then zero, then negative. */
  ghost predicate Falling(f: int -> Answer, lo: int, hi: int) {
    && (forall i :: lo <= i < hi ==> f(i).Number?)
    && (forall i, j :: lo <= i < j < hi && f(j).sign > 0 ==> f(i).sign > 0)
    && (forall i, j :: lo <= i < j < hi && f(i).sign < 0 ==> f(j).sign < 0)
  }

  /** The least index with a true answer, or none. */
  ghost predicate IsLeast(f: int -> Answer, lo: int, hi: int, r: Outcome) {
    match r
    case Found(i) => lo <= i < hi && Sat(f(i)) && forall j :: lo <= j < i ==> !Sat(f(j))
    case NotFound => forall j :: lo <= j < hi ==> !Sat(f(j))
    case TypeError => false
  }

  ghost predicate IsZero(f: int -> Answer, lo: int, hi: int, r: Outcome) {
    match r
    case Found(i) => lo <= i < hi && f(i) == Number(0)
    case NotFound => forall j :: lo <= j < hi ==> f(j) != Number(0)
    case TypeError => false
  }

  ghost predicate Distinct(calls: seq<int>) {
    forall i, j :: 0 <= i < j < |calls| ==> calls[i] != calls[j]
  }

  /** floor(log2 n) + 1, and 0 for 0. */
  function Bits(n: nat): nat {
    if n == 0 then 0 else 1 + Bits(n / 2)
  }

  lemma {:induction false} BitsIsLog(n: nat)
    requires n > 0
    ensures Bits(n) >= 1 && Two(Bits(n) - 1) <= n < Two(Bits(n))
  {
    if n > 1 {
      BitsIsLog(n / 2);
      assert Two(Bits(n)) == 2 * Two(Bits(n / 2)) && Two(Bits(n) - 1) == 2 * Two(Bits(n / 2) - 1);
    } else {
      assert Bits(n) == 1 + Bits(n / 2) && n / 2 == 0;
      assert Two(Bits(n)) == 2 * Two(Bits(n) - 1);
    }
  }

  lemma {:induction false} BitsMonotone(m: nat, n: nat)
    requires m <= n
    ensures Bits(m) <= Bits(n)
  {
    if m == 0 {
    } else {
      BitsMonotone(m / 2, n / 2);
    }
  }

  /** At most floor(log2 n) + 1 block calls, all on different indices. */
  ghost predicate FewCalls(calls: seq<int>, lo: int, hi: int) {
    && Distinct(calls)
    && (forall k :: 0 <= k < |calls| ==> lo <= calls[k] < hi)
    && |calls| <= if lo <= hi then Bits(hi - lo) else 0
  }

  ghost predicate AllFit(f: int -> Answer, first: Answer, calls: seq<int>) {
    forall k :: 0 <= k < |calls| ==> Fits(first, f(calls[k]))
  }

  /** Everything asked before the edge was positive, and after it negative. */
  ghost predicate SignEdge(f: int -> Answer, start: int, end: int, edge: int) {
    && start <= edge <= end
    && (edge == start || (f(edge - 1).Number? && f(edge - 1).sign > 0))
    && (edge == end || (f(edge).Number? && f(edge).sign < 0))
  }

  lemma NoZeroAtEdge(f: int -> Answer, start: int, end: int, edge: int)
    requires Falling(f, start, end) && SignEdge(f, start, end, edge)
    ensures IsZero(f, start, end, NotFound)
  {
  }

  /** An edge from false to true; with the end itself counting as true and the start as false. */
  ghost predicate TruthEdge(f: int -> Answer, start: int, end: int, edge: int) {
    && start <= edge <= end
    && (edge == start || !Sat(f(edge - 1)))
    && (edge == end || Sat(f(edge)))
  }

  function AtEdge(edge: int, end: int): Outcome {
    if edge >= end then NotFound else Found(edge)
  }

  lemma EdgeIsLeast(f: int -> Answer, start: int, end: int, edge: int)
    requires Rising(f, start, end) && TruthEdge(f, start, end, edge)
    ensures IsLeast(f, start, end, AtEdge(edge, end))
  {
  }

  /** The answer sends the search to the right of the last element, or to the left of the first. */
  predicate GoesRight(a: Answer) {
    if a.Number? then a.sign > 0 else !Sat(a)
  }

  predicate GoesLeft(a: Answer) {
    if a.Number? then a.sign < 0 else Sat(a)
  }

  // ---------------------------------------------------------------------------------------------
  // The search without a cache, as a recursion
  // ---------------------------------------------------------------------------------------------

  /** How a search on [lo, hi) ends, where it closed in, and the indices it asked for. */
  datatype Trace = Trace(end: Ending, edge: int, calls: seq<int>)

  datatype Ending = Closed | Zero | Misfit

  /** The middle as the array version computes it, and as the range version does for lo..hi-1. */
  function Middle(inclusive: bool, lo: int, hi: int): (mid: int)
    requires lo < hi
    ensures lo <= mid < hi && mid - lo <= (hi - lo) / 2 && hi - mid - 1 <= (hi - lo) / 2
  {
    if inclusive then lo + (hi - 1 - lo) / 2 else lo + (hi - lo) / 2
  }

  /** The answer is of the kind that the mode expects. */
  predicate Suits(any: bool, a: Answer) {
    if any then a.Number? else BoolLike(a)
  }

  function Search(f: int -> Answer, any: bool, inclusive: bool, lo: int, hi: int): Trace
    decreases hi - lo
  {
    if lo >= hi then Trace(Closed, lo, [])
    else
      var mid := Middle(inclusive, lo, hi);
      var a := f(mid);
      if !Suits(any, a) then Trace(Misfit, lo, [mid])
      else if any && a.sign == 0 then Trace(Zero, mid, [mid])
      else Onto([mid], if GoesRight(a) then Search(f, any, inclusive, mid + 1, hi)
                       else Search(f, any, inclusive, lo, mid))
  }

  /** The calls made before come first. */
  function Onto(before: seq<int>, t: Trace): Trace {
    t.(calls := before + t.calls)
  }

  lemma OntoOnto(a: seq<int>, b: seq<int>, t: Trace)
    ensures Onto(a, Onto(b, t)) == Onto(a + b, t)
  {
  }

  lemma {:induction false} SearchAsksFew(f: int -> Answer, any: bool, inclusive: bool, lo: int, hi: int)
    ensures FewCalls(Search(f, any, inclusive, lo, hi).calls, lo, hi)
    decreases hi - lo
  {
    if lo >= hi {
    } else {
      var mid := Middle(inclusive, lo, hi);
      OneCall(mid, lo, hi);
      if Suits(any, f(mid)) && !(any && f(mid).sign == 0) {
        var lo', hi' := if GoesRight(f(mid)) then mid + 1 else lo, if GoesRight(f(mid)) then hi else mid;
        SearchAsksFew(f, any, inclusive, lo', hi');
        OneMoreCall(mid, Search(f, any, inclusive, lo', hi').calls, lo, hi, lo', hi');
      }
    }
  }

  lemma OneMoreCall(mid: int, calls: seq<int>, lo: int, hi: int, lo': int, hi': int)
    requires lo <= mid < hi && lo <= lo' <= hi' <= hi && !(lo' <= mid < hi') && hi' - lo' <= (hi - lo) / 2
    requires FewCalls(calls, lo', hi')
    ensures FewCalls([mid] + calls, lo, hi)
  {
    BitsMonotone(hi' - lo', (hi - lo) / 2);
    var all := [mid] + calls;
    assert all[0] == mid && forall k :: 0 < k < |all| ==> all[k] == calls[k - 1];
  }

  lemma OneCall(at: int, lo: int, hi: int)
    requires lo <= at < hi
    ensures FewCalls([at], lo, hi)
  {
    BitsMonotone(1, hi - lo);
  }

  lemma {:induction false} SearchFits(f: int -> Answer, any: bool, inclusive: bool, lo: int, hi: int, first: Answer)
    requires Suits(any, first)
    ensures
      var t := Search(f, any, inclusive, lo, hi);
      EndTellsFit(f, first, t) && (lo < hi ==> |t.calls| > 0)
    decreases hi - lo
  {
    if lo >= hi {
    } else {
      var mid := Middle(inclusive, lo, hi);
      OneFits(f, first, mid);
      if Suits(any, f(mid)) && !(any && f(mid).sign == 0) {
        var lo', hi' := if GoesRight(f(mid)) then mid + 1 else lo, if GoesRight(f(mid)) then hi else mid;
        SearchFits(f, any, inclusive, lo', hi', first);
        OntoFits(f, first, mid, Search(f, any, inclusive, lo', hi'));
      }
    }
  }

  /** A search ends in `Misfit` exactly when one of its answers was of the wrong kind. */
  ghost predicate EndTellsFit(f: int -> Answer, first: Answer, t: Trace) {
    t.end == Misfit <==> !AllFit(f, first, t.calls)
  }

  lemma OneFits(f: int -> Answer, first: Answer, mid: int)
    ensures AllFit(f, first, [mid]) <==> Fits(first, f(mid))
  {
    assert [mid][0] == mid;
  }

  lemma OntoFits(f: int -> Answer, first: Answer, mid: int, t: Trace)
    requires Fits(first, f(mid)) && EndTellsFit(f, first, t)
    ensures EndTellsFit(f, first, Onto([mid], t))
  {
    FitsMore(f, first, mid, t.calls);
  }

  lemma FitsMore(f: int -> Answer, first: Answer, mid: int, calls: seq<int>)
    ensures AllFit(f, first, [mid] + calls) <==> Fits(first, f(mid)) && AllFit(f, first, calls)
  {
    var all := [mid] + calls;
    assert all[0] == mid && forall k :: 0 <= k < |calls| ==> all[k + 1] == calls[k];
  }

  /** A search that closes in does so on an edge, and a zero found is one. */
  ghost predicate EndsOnEdge(f: int -> Answer, any: bool, lo: int, hi: int, t: Trace) {
    && (t.end == Closed ==> if any then SignEdge(f, lo, hi, t.edge) else TruthEdge(f, lo, hi, t.edge))
    && (t.end == Zero ==> any && lo <= t.edge < hi && f(t.edge) == Number(0))
  }

  lemma EdgeOnTheRight(f: int -> Answer, any: bool, lo: int, mid: int, hi: int, t: Trace)
    requires lo <= mid < hi && Suits(any, f(mid)) && GoesRight(f(mid)) && EndsOnEdge(f, any, mid + 1, hi, t)
    ensures EndsOnEdge(f, any, lo, hi, Onto([mid], t))
  {
  }

  lemma EdgeOnTheLeft(f: int -> Answer, any: bool, lo: int, mid: int, hi: int, t: Trace)
    requires lo <= mid < hi && Suits(any, f(mid)) && !(any && f(mid).sign == 0) && !GoesRight(f(mid))
    requires EndsOnEdge(f, any, lo, mid, t)
    ensures EndsOnEdge(f, any, lo, hi, Onto([mid], t))
  {
  }

  lemma {:induction false} SearchEdge(f: int -> Answer, any: bool, inclusive: bool, lo: int, hi: int)
    requires lo <= hi
    ensures EndsOnEdge(f, any, lo, hi, Search(f, any, inclusive, lo, hi))
    decreases hi - lo
  {
    if lo >= hi {
    } else {
      var mid := Middle(inclusive, lo, hi);
      if Suits(any, f(mid)) && !(any && f(mid).sign == 0) {
        if GoesRight(f(mid)) {
          SearchEdge(f, any, inclusive, mid + 1, hi);
          EdgeOnTheRight(f, any, lo, mid, hi, Search(f, any, inclusive, mid + 1, hi));
        } else {
          SearchEdge(f, any, inclusive, lo, mid);
          EdgeOnTheLeft(f, any, lo, mid, hi, Search(f, any, inclusive, lo, mid));
        }
      }
    }
  }

  // ---------------------------------------------------------------------------------------------
  // Arrays
  // ---------------------------------------------------------------------------------------------

  /** One round's answer: the first middle was asked before the loop, and is not asked again. */
  method Ask(f: int -> Answer, calls: seq<int>, haveFirst: bool, mid: int, firstMid: int)
    returns (a: Answer, asked: seq<int>)
    requires haveFirst ==> mid == firstMid && calls == [firstMid]
    ensures a == f(mid) && asked == if haveFirst then [mid] else calls + [mid]
  {
    if haveFirst && mid == firstMid {
      return f(firstMid), calls;
    }
    return f(mid), calls + [mid];
  }

  /** What is left to do, put after the calls that the loop has used so far, is the whole search. */
  ghost predicate Underway(goal: Trace, calls: seq<int>, haveFirst: bool, firstMid: int, left: Trace) {
    if haveFirst then calls == [firstMid] && left == goal else Onto(calls, left) == goal
  }

  lemma RoundStep(goal: Trace, calls: seq<int>, haveFirst: bool, firstMid: int, mid: int, left: Trace, rest: Trace)
    requires Underway(goal, calls, haveFirst, firstMid, left) && left == Onto([mid], rest)
    requires haveFirst ==> mid == firstMid
    ensures Onto(if haveFirst then [mid] else calls + [mid], rest) == goal
  {
    if !haveFirst {
      OntoOnto(calls, [mid], rest);
    }
  }

  /** The loop of find-any mode; the answer at the first middle was fetched before the loop. */
  method FindAnyInArray(f: int -> Answer, n: nat) returns (t: Trace)
    requires n > 0
    ensures t == Search(f, true, false, 0, n)
  {
    var lo, hi, firstMid, haveFirst := 0, n, n / 2, true;
    var calls := [firstMid];
    ghost var goal := Search(f, true, false, 0, n);
    while lo < hi
      invariant 0 <= lo <= hi <= n && (haveFirst ==> lo == 0 && hi == n)
      invariant Underway(goal, calls, haveFirst, firstMid, Search(f, true, false, lo, hi))
      decreases hi - lo
    {
      var mid := lo + (hi - lo) / 2;
      ghost var left, before, had := Search(f, true, false, lo, hi), calls, haveFirst;
      var a;
      a, calls := Ask(f, calls, haveFirst, mid, firstMid);
      haveFirst := false;
      if !a.Number? {
        RoundStep(goal, before, had, firstMid, mid, left, Trace(Misfit, lo, []));
        return Trace(Misfit, lo, calls);
      }
      if a.sign == 0 {
        RoundStep(goal, before, had, firstMid, mid, left, Trace(Zero, mid, []));
        return Trace(Zero, mid, calls);
      }
      if a.sign > 0 {
        lo := mid + 1;
      } else {
        hi := mid;
      }
      RoundStep(goal, before, had, firstMid, mid, left, Search(f, true, false, lo, hi));
    }
    t := Trace(Closed, lo, calls);
  }

  /** The loop of find-minimum mode. */
  method FindMinimumInArray(f: int -> Answer, n: nat) returns (t: Trace)
    requires n > 0
    ensures t == Search(f, false, false, 0, n)
  {
    var lo, hi, firstMid, haveFirst := 0, n, n / 2, true;
    var calls := [firstMid];
    ghost var goal := Search(f, false, false, 0, n);
    while lo < hi
      invariant 0 <= lo <= hi <= n && (haveFirst ==> lo == 0 && hi == n)
      invariant Underway(goal, calls, haveFirst, firstMid, Search(f, false, false, lo, hi))
      decreases hi - lo
    {
      var mid := lo + (hi - lo) / 2;
      ghost var left, before, had := Search(f, false, false, lo, hi), calls, haveFirst;
      var a;
      a, calls := Ask(f, calls, haveFirst, mid, firstMid);
      haveFirst := false;
      if !BoolLike(a) {
        RoundStep(goal, before, had, firstMid, mid, left, Trace(Misfit, lo, []));
        return Trace(Misfit, lo, calls);
      }
      if a.Boolean? && a.b {
        hi := mid;
      } else {
        lo := mid + 1;
      }
      RoundStep(goal, before, had, firstMid, mid, left, Search(f, false, false, lo, hi));
    }
    t := Trace(Closed, lo, calls);
  }

  /** What the block's caller gets. */
  function Result(t: Trace, any: bool, end: int): Outcome {
    match t.end
    case Misfit => TypeError
    case Zero => Found(t.edge)
    case Closed => if any then NotFound else AtEdge(t.edge, end)
  }

  /** `bsearch`/`bsearch_index` on an array of `n` elements: the first answer chooses the mode. */
  method ArrayBsearch(f: int -> Answer, n: nat) returns (r: Outcome, t: Trace)
    ensures FewCalls(t.calls, 0, n)
    ensures n == 0 ==> r == NotFound && t.calls == []
    ensures n > 0 ==> |t.calls| > 0 && t.calls[0] == n / 2 && Promised(f, 0, n, f(n / 2), r, t)
  {
    if n == 0 {
      return NotFound, Trace(Closed, 0, []);
    }
    var first := f(n / 2);
    if first.Number? {
      t := FindAnyInArray(f, n);
      r := Result(t, true, n);
      TraceAnswers(f, true, false, 0, n, t);
    } else if BoolLike(first) {
      t := FindMinimumInArray(f, n);
      r := Result(t, false, n);
      TraceAnswers(f, false, false, 0, n, t);
    } else {
      r, t := TypeError, Trace(Misfit, 0, [n / 2]);
      NoMode(f, 0, n, n / 2, t);
    }
  }

  /** A predicate that answers with booleans or nil, and once true stays true. */
  ghost predicate RisingAnswers(f: int -> Answer, start: int, stop: int) {
    Rising(f, start, stop) && forall i :: start <= i < stop ==> BoolLike(f(i))
  }

  /** With answers of one kind no probe is of the wrong kind. */
  lemma AllOfOneKind(f: int -> Answer, start: int, stop: int, first: Answer, calls: seq<int>)
    requires FewCalls(calls, start, stop)
    requires (BoolLike(first) && RisingAnswers(f, start, stop)) || (first.Number? && Falling(f, start, stop))
    ensures AllFit(f, first, calls)
  {
  }

  /** What a search with a given first answer promises, for any block and for monotone ones. */
  ghost predicate Promised(f: int -> Answer, lo: int, hi: int, first: Answer, r: Outcome, t: Trace) {
    && Answered(f, lo, hi, first, r, t)
    && (RisingAnswers(f, lo, hi) ==> BoolLike(first) && IsLeast(f, lo, hi, r))
    && (BoolLike(first) && Rising(f, lo, hi) && r != TypeError ==> IsLeast(f, lo, hi, r))
    && (Falling(f, lo, hi) ==> first.Number? && IsZero(f, lo, hi, r))
  }

  lemma TraceAnswers(f: int -> Answer, any: bool, inclusive: bool, lo: int, hi: int, t: Trace)
    requires lo < hi && t == Search(f, any, inclusive, lo, hi) && Suits(any, f(Middle(inclusive, lo, hi)))
    ensures FewCalls(t.calls, lo, hi) && |t.calls| > 0 && t.calls[0] == Middle(inclusive, lo, hi)
    ensures Promised(f, lo, hi, f(Middle(inclusive, lo, hi)), Result(t, any, hi), t)
  {
    var first := f(Middle(inclusive, lo, hi));
    SearchAsksFew(f, any, inclusive, lo, hi);
    SearchFits(f, any, inclusive, lo, hi, first);
    SearchEdge(f, any, inclusive, lo, hi);
    if RisingAnswers(f, lo, hi) || Falling(f, lo, hi) {
      AllOfOneKind(f, lo, hi, first, t.calls);
    }
    if Rising(f, lo, hi) && !any && t.end == Closed {
      EdgeIsLeast(f, lo, hi, t.edge);
    }
    if Falling(f, lo, hi) && t.end == Closed {
      NoZeroAtEdge(f, lo, hi, t.edge);
    }
  }

  /** A first answer of neither kind ends the search. */
  lemma NoMode(f: int -> Answer, lo: int, hi: int, at: int, t: Trace)
    requires lo <= at < hi && !f(at).Number? && !BoolLike(f(at)) && t == Trace(Misfit, lo, [at])
    ensures FewCalls(t.calls, lo, hi) && |t.calls| > 0 && t.calls[0] == at
    ensures Promised(f, lo, hi, f(at), TypeError, t)
  {
    OneCall(at, lo, hi);
    OneFits(f, f(at), at);
    assert !Falling(f, lo, hi) && !RisingAnswers(f, lo, hi);
  }

  /** What the loops promise for any block. */
  ghost predicate Answered(f: int -> Answer, start: int, stop: int, first: Answer, r: Outcome, t: Trace) {
    && (r == TypeError <==> !AllFit(f, first, t.calls))
    && (BoolLike(first) && r != TypeError ==> TruthEdge(f, start, stop, t.edge) && r == AtEdge(t.edge, stop))
    && (first.Number? && r.Found? ==> start <= r.at < stop && f(r.at) == Number(0))
    && (first.Number? && r == NotFound ==> SignEdge(f, start, stop, t.edge))
  }

  // ---------------------------------------------------------------------------------------------
  // Integer ranges
  // ---------------------------------------------------------------------------------------------

  predicate InWord(n: int) {
    INT64_MIN <= n <= INT64_MAX
  }

  /** The loop of find-any mode over lo..hi inclusive; it closes in with lo at the edge and hi one below. */
  method FindAnyInRange(f: int -> Answer, start: int, last: int) returns (t: Trace, ghost wraps: bool)
    requires start <= last && InWord(start) && InWord(last)
    ensures t == Search(f, true, true, start, last + 1)
    ensures wraps <==> t.end == Closed && StepsOut(t.edge)
  {
    var lo, hi, haveFirst := start, last, true;
    var firstMid := lo + (hi - lo) / 2;
    var calls := [firstMid];
    ghost var goal := Search(f, true, true, start, last + 1);
    while lo <= hi
      invariant start <= lo <= hi + 1 <= last + 1 && (haveFirst ==> lo == start && hi == last)
      invariant Underway(goal, calls, haveFirst, firstMid, Search(f, true, true, lo, hi + 1))
      decreases hi - lo
    {
      var mid := lo + (hi - lo) / 2;
      ghost var left, before, had := Search(f, true, true, lo, hi + 1), calls, haveFirst;
      var a;
      a, calls := Ask(f, calls, haveFirst, mid, firstMid);
      haveFirst := false;
      if !a.Number? {
        RoundStep(goal, before, had, firstMid, mid, left, Trace(Misfit, lo, []));
        return Trace(Misfit, lo, calls), false;
      }
      if a.sign == 0 {
        RoundStep(goal, before, had, firstMid, mid, left, Trace(Zero, mid, []));
        return Trace(Zero, mid, calls), false;
      }
      if a.sign > 0 {
        lo := mid + 1;
      } else {
        hi := mid - 1;
      }
      RoundStep(goal, before, had, firstMid, mid, left, Search(f, true, true, lo, hi + 1));
    }
    // while lo <= hi both lie between start and last, so only the last step can leave the 64-bit range
    t, wraps := Trace(Closed, lo, calls), lo > INT64_MAX || hi < INT64_MIN;
  }

  /** The loop of find-minimum mode, remembering the last true probe. */
  method FindMinimumInRange(f: int -> Answer, start: int, last: int)
    returns (t: Trace, found: int, hasFound: bool, ghost wraps: bool)
    requires start <= last && InWord(start) && InWord(last)
    ensures t == Search(f, false, true, start, last + 1) && t.end != Zero
    ensures t.end == Closed ==> (hasFound <==> t.edge <= last) && (hasFound ==> found == t.edge)
    ensures wraps <==> t.end == Closed && StepsOut(t.edge)
  {
    var lo, hi, haveFirst := start, last, true;
    var firstMid := lo + (hi - lo) / 2;
    var calls := [firstMid];
    found, hasFound := 0, false;
    ghost var goal := Search(f, false, true, start, last + 1);
    while lo <= hi
      invariant start <= lo <= hi + 1 <= last + 1 && (haveFirst ==> lo == start && hi == last)
      invariant if hasFound then found == hi + 1 <= last else hi == last
      invariant Underway(goal, calls, haveFirst, firstMid, Search(f, false, true, lo, hi + 1))
      decreases hi - lo
    {
      var mid := lo + (hi - lo) / 2;
      ghost var left, before, had := Search(f, false, true, lo, hi + 1), calls, haveFirst;
      var a;
      a, calls := Ask(f, calls, haveFirst, mid, firstMid);
      haveFirst := false;
      if !BoolLike(a) {
        RoundStep(goal, before, had, firstMid, mid, left, Trace(Misfit, lo, []));
        return Trace(Misfit, lo, calls), found, hasFound, false;
      }
      if a.Boolean? && a.b {
        found, hasFound := mid, true;
        hi := mid - 1;
      } else {
        lo := mid + 1;
      }
      RoundStep(goal, before, had, firstMid, mid, left, Search(f, false, true, lo, hi + 1));
    }
    t, wraps := Trace(Closed, lo, calls), lo > INT64_MAX || hi < INT64_MIN;
  }

  /** With lo == edge and hi == edge - 1, one of the two is out of the 64-bit range. */
  predicate StepsOut(edge: int) {
    edge > INT64_MAX || edge - 1 < INT64_MIN
  }

  /** Whether the last step leaves the 64-bit range, read off the block's answers at the two ends. */
  predicate LeavesWord(f: int -> Answer, start: int, stop: int) {
    (stop - 1 == INT64_MAX && GoesRight(f(stop - 1))) || (start == INT64_MIN && GoesLeft(f(start)))
  }

  /** The bounds are too far out before the search even starts. */
  predicate TooWide(start: int, stop: int) {
    stop - 1 < INT64_MIN || stop - 1 - start > INT64_MAX
  }

  lemma LastStepOfMinimum(f: int -> Answer, start: int, stop: int, edge: int)
    requires InWord(start) && InWord(stop - 1) && start < stop
    requires RisingAnswers(f, start, stop) && TruthEdge(f, start, stop, edge)
    ensures StepsOut(edge) <==> LeavesWord(f, start, stop)
  {
    if edge < stop {
      assert Sat(f(edge)) && (edge < stop - 1 ==> Sat(f(stop - 1)));
    }
    if start < edge {
      assert !Sat(f(edge - 1)) && (start < edge - 1 ==> !Sat(f(start)));
    }
    assert BoolLike(f(start)) && BoolLike(f(stop - 1));
  }

  lemma LastStepOfAny(f: int -> Answer, start: int, stop: int, r: Outcome, edge: int)
    requires InWord(start) && InWord(stop - 1) && start < stop && Falling(f, start, stop) && r != TypeError
    requires r.Found? ==> start <= r.at < stop && f(r.at) == Number(0)
    requires r == NotFound ==> SignEdge(f, start, stop, edge)
    ensures r == NotFound && StepsOut(edge) <==> LeavesWord(f, start, stop)
  {
    assert f(start).Number? && f(stop - 1).Number?;
    if r.Found? {
      assert f(stop - 1).sign <= 0 && f(start).sign >= 0;
    } else {
      if edge < stop {
        assert f(stop - 1).sign <= 0;
      }
      if start < edge {
        assert f(start).sign >= 0;
      }
    }
  }

  /**
    * `bsearch` on an integer range. `wraps` says that the C arithmetic leaves the 64-bit range: by the
    * exclusive end, by the width, or by a last step beyond an end of the 64-bit range. For monotone
    * answers that last step can be told from the answers at the two ends. `t` is the search made.
    */
  method RangeBsearch(f: int -> Answer, start: int, end: int, exclusive: bool)
    returns (r: Outcome, t: Trace, ghost wraps: bool)
    requires InWord(start) && InWord(end)
    ensures RangeFound(f, start, if exclusive then end else end + 1, r, t)
    ensures RangeWraps(f, start, if exclusive then end else end + 1, r, t, wraps)
  {
    var lo, hi := start, if exclusive then end - 1 else end;
    if hi < lo {
      EmptyRange(f, lo, hi + 1, lo);
      return NotFound, Trace(Closed, lo, []), hi < INT64_MIN || hi - lo > INT64_MAX;
    }
    r, t, wraps := BsearchBetween(f, lo, hi);
  }

  method BsearchBetween(f: int -> Answer, lo: int, hi: int) returns (r: Outcome, t: Trace, ghost wraps: bool)
    requires lo <= hi && InWord(lo) && InWord(hi)
    ensures RangeFound(f, lo, hi + 1, r, t) && RangeWraps(f, lo, hi + 1, r, t, wraps)
  {
    ghost var steps;
    r, t, steps := SearchRange(f, lo, hi);
    RangeSummary(f, lo, hi + 1, r, t, steps);
    wraps := hi < INT64_MIN || hi - lo > INT64_MAX || steps;
  }

  /**
    * Nothing on an empty range; otherwise what the search promises, starting in the middle. Where `wraps`
    * holds this is about unbounded integers: the C arithmetic then leaves the 64-bit range.
    */
  ghost predicate RangeFound(f: int -> Answer, start: int, stop: int, r: Outcome, t: Trace) {
    && FewCalls(t.calls, start, stop)
    && (stop <= start ==> r == NotFound && t.calls == [])
    && (start < stop ==>
          && |t.calls| > 0 && t.calls[0] == start + (stop - 1 - start) / 2
          && Promised(f, start, stop, f(t.calls[0]), r, t))
  }

  /** When the C arithmetic leaves the 64-bit range: for any block, and for monotone ones by the ends alone. */
  ghost predicate RangeWraps(f: int -> Answer, start: int, stop: int, r: Outcome, t: Trace, wraps: bool) {
    && (stop <= start ==> (wraps <==> TooWide(start, stop)))
    && (start < stop && |t.calls| > 0 ==>
          && (wraps <==> TooWide(start, stop) || WrapsLast(f(t.calls[0]), r, t.edge))
          && (RisingAnswers(f, start, stop) || Falling(f, start, stop) ==>
                (wraps <==> TooWide(start, stop) || LeavesWord(f, start, stop))))
  }

  lemma EmptyRange(f: int -> Answer, start: int, stop: int, edge: int)
    requires stop <= start
    ensures RangeFound(f, start, stop, NotFound, Trace(Closed, edge, []))
    ensures RangeWraps(f, start, stop, NotFound, Trace(Closed, edge, []), TooWide(start, stop))
  {
  }

  /** The first answer chooses the mode. */
  method SearchRange(f: int -> Answer, lo: int, hi: int) returns (r: Outcome, t: Trace, ghost wraps: bool)
    requires lo <= hi && InWord(lo) && InWord(hi)
    ensures FewCalls(t.calls, lo, hi + 1) && |t.calls| > 0 && t.calls[0] == lo + (hi - lo) / 2
    ensures Promised(f, lo, hi + 1, f(t.calls[0]), r, t)
    ensures wraps <==> WrapsLast(f(t.calls[0]), r, t.edge)
  {
    var firstMid := lo + (hi - lo) / 2;
    var first := f(firstMid);
    if first.Number? {
      t, wraps := FindAnyInRange(f, lo, hi);
      r := Result(t, true, hi + 1);
      TraceAnswers(f, true, true, lo, hi + 1, t);
    } else if BoolLike(first) {
      var found, hasFound;
      t, found, hasFound, wraps := FindMinimumInRange(f, lo, hi);
      r := if t.end == Misfit then TypeError else if hasFound then Found(found) else NotFound;
      TraceAnswers(f, false, true, lo, hi + 1, t);
    } else {
      r, t, wraps := TypeError, Trace(Misfit, lo, [firstMid]), false;
      NoMode(f, lo, hi + 1, firstMid, t);
    }
  }

  /** Whether the last step of a search that ends with `r` leaves the 64-bit range. */
  predicate WrapsLast(first: Answer, r: Outcome, edge: int) {
    if first.Number? then r == NotFound && StepsOut(edge) else r != TypeError && StepsOut(edge)
  }

  /** For monotone answers the ends tell whether the last step wraps. */
  lemma EndsTell(f: int -> Answer, start: int, stop: int, first: Answer, r: Outcome, t: Trace)
    requires InWord(start) && InWord(stop - 1) && start < stop && Promised(f, start, stop, first, r, t)
    ensures RisingAnswers(f, start, stop) || Falling(f, start, stop) ==>
              (WrapsLast(first, r, t.edge) <==> LeavesWord(f, start, stop))
  {
    if RisingAnswers(f, start, stop) {
      LastStepOfMinimum(f, start, stop, t.edge);
    }
    if Falling(f, start, stop) {
      LastStepOfAny(f, start, stop, r, t.edge);
    }
  }

  lemma RangeSummary(f: int -> Answer, start: int, stop: int, r: Outcome, t: Trace, steps: bool)
    requires InWord(start) && InWord(stop - 1) && start < stop
    requires FewCalls(t.calls, start, stop) && |t.calls| > 0 && t.calls[0] == start + (stop - 1 - start) / 2
    requires Promised(f, start, stop, f(t.calls[0]), r, t)
    requires steps <==> WrapsLast(f(t.calls[0]), r, t.edge)
    ensures RangeFound(f, start, stop, r, t) && RangeWraps(f, start, stop, r, t, TooWide(start, stop) || steps)
  {
    EndsTell(f, start, stop, f(t.calls[0]), r, t);
  }

  /** A block that is never true, on 0..2^63-1: nothing is found, and the last step leaves the 64-bit range. */
  method NothingUpToTheTop() returns (r: Outcome, ghost wraps: bool)
    ensures r == NotFound && wraps
  {
    var f := (i: int) => Boolean(false);
    var t;
    assert RisingAnswers(f, 0, INT64_MAX + 1);
    r, t, wraps := RangeBsearch(f, 0, INT64_MAX, false);
  }

  /** A block that is always true, on the same range: the search ends at 0 without leaving it. */
  method EverythingUpToTheTop() returns (r: Outcome, ghost wraps: bool)
    ensures r == Found(0) && !wraps
  {
    var f := (i: int) => Boolean(true);
    var t;
    assert RisingAnswers(f, 0, INT64_MAX + 1) && Sat(f(0));
    r, t, wraps := RangeBsearch(f, 0, INT64_MAX, false);
  }

  /** Positive before `t`, zero at `t`, negative after it: what `t <=> i` answers. */
  function Against(t: int): int -> Answer {
    i => Number(t - i)
  }

  /** True from `t` on, and nil before it. */
  function From(t: int): int -> Answer {
    i => if i >= t then Boolean(true) else NilAnswer
  }

  lemma AgainstIsZero(t: int, start: int, stop: int, first: Answer, r: Outcome, trace: Trace)
    requires Promised(Against(t), start, stop, first, r, trace)
    ensures r == if start <= t < stop then Found(t) else NotFound
  {
    var f := Against(t);
    assert Falling(f, start, stop);
    assert f(t) == Number(0);
  }

  lemma FromIsLeast(t: int, start: int, stop: int, first: Answer, r: Outcome, trace: Trace)
    requires start < stop && Promised(From(t), start, stop, first, r, trace)
    ensures r == if t >= stop then NotFound else Found(if t < start then start else t)
  {
    var f := From(t);
    assert RisingAnswers(f, start, stop);
    assert Sat(f(t)) && Sat(f(stop)) == (stop >= t) && Sat(f(start)) == (start >= t);
  }

  /** The index of `t` in `[0, 1, .., n - 1]`, by comparing. */
  method FindNumber(t: int, n: nat) returns (r: Outcome)
    ensures r == if 0 <= t < n then Found(t) else NotFound
  {
    var f := Against(t);
    var trace;
    r, trace := ArrayBsearch(f, n);
    if n > 0 {
      AgainstIsZero(t, 0, n, f(n / 2), r, trace);
    }
  }

  /** The first index of `[0, 1, .., n - 1]` from `t` on. */
  method FindFrom(t: int, n: nat) returns (r: Outcome)
    ensures r == if t >= n || n == 0 then NotFound else Found(if t < 0 then 0 else t)
  {
    var f := From(t);
    var trace;
    r, trace := ArrayBsearch(f, n);
    if n > 0 {
      FromIsLeast(t, 0, n, f(n / 2), r, trace);
    }
  }

  /** `t` itself in `start...stop`, by comparing. */
  method FindNumberBetween(t: int, start: int, stop: int) returns (r: Outcome)
    requires InWord(start) && InWord(stop)
    ensures r == if start <= t < stop then Found(t) else NotFound
  {
    var f := Against(t);
    var trace;
    ghost var wraps;
    r, trace, wraps := RangeBsearch(f, start, stop, true);
    if start < stop {
      AgainstIsZero(t, start, stop, f(trace.calls[0]), r, trace);
    }
  }

  /** The first number of `start..last` from `t` on. */
  method FindFromBetween(t: int, start: int, last: int) returns (r: Outcome)
    requires InWord(start) && InWord(last)
    ensures r == if t > last || start > last then NotFound else Found(if t < start then start else t)
  {
    var f := From(t);
    var trace;
    ghost var wraps;
    r, trace, wraps := RangeBsearch(f, start, last, false);
    if start <= last {
      FromIsLeast(t, start, last + 1, f(trace.calls[0]), r, trace);
    }
  }
}
