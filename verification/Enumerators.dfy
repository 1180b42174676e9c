/**
  * The enumerators of `Array`: `combination`, `permutation`, their repeated forms and `product`.
  *
  * Each is a backtracking recursion that overwrites a shared buffer and pushes a copy of it at the
  * bottom. They are proved to push the rows that `Rows` lists; `Rows` is proved to hold exactly the index
  * rows that a rule admits, in strictly increasing lexicographic order, and its lengths are counted.
  */
module Enumerators {
  import Arithmetic

  // ---------------------------------------------------------------------------------------------
  // Index rows
  // ---------------------------------------------------------------------------------------------

  datatype Rule = Any | Distinct | Increasing | NonDecreasing

  predicate Pairwise(rule: Rule, a: nat, b: nat) {
    match rule
    case Any => true
    case Distinct => a != b
    case Increasing => a < b
    case NonDecreasing => a <= b
  }

  predicate Admissible(rule: Rule, row: seq<nat>) {
    forall i, j :: 0 <= i < j < |row| ==> Pairwise(rule, row[i], row[j])
  }

  /** Entry `i` of a row is an index below `sizes[i]`. */
  predicate Fits(sizes: seq<nat>, row: seq<nat>) {
    |row| <= |sizes| && forall i :: 0 <= i < |row| ==> row[i] < sizes[i]
  }

  predicate Partial(rule: Rule, sizes: seq<nat>, row: seq<nat>) {
    Fits(sizes, row) && Admissible(rule, row)
  }

  /** The completions of `prefix`, in the order in which the recursion meets them. */
  function Rows(rule: Rule, sizes: seq<nat>, prefix: seq<nat>): seq<seq<nat>>
    requires |prefix| <= |sizes|
    decreases |sizes| - |prefix|, 1, 0
  {
    if |prefix| == |sizes| then [prefix] else RowsFrom(rule, sizes, prefix, 0)
  }

  /** Those whose next entry is at least `i`. */
  function RowsFrom(rule: Rule, sizes: seq<nat>, prefix: seq<nat>, i: nat): seq<seq<nat>>
    requires |prefix| < |sizes|
    decreases |sizes| - |prefix|, 0, sizes[|prefix|] - i
  {
    if i >= sizes[|prefix|] then []
    else
      (if Admissible(rule, prefix + [i]) then Rows(rule, sizes, prefix + [i]) else []) +
      RowsFrom(rule, sizes, prefix, i + 1)
  }

  ghost predicate LexLess(a: seq<nat>, b: seq<nat>) {
    exists p :: 0 <= p < |a| && p < |b| && a[..p] == b[..p] && a[p] < b[p]
  }

  ghost predicate Ascending(rows: seq<seq<nat>>) {
    forall i, j :: 0 <= i < j < |rows| ==> LexLess(rows[i], rows[j])
  }

  ghost predicate Completes(rule: Rule, sizes: seq<nat>, prefix: seq<nat>, row: seq<nat>) {
    |row| == |sizes| && prefix <= row && Partial(rule, sizes, row)
  }

  lemma {:induction false} RowsExact(rule: Rule, sizes: seq<nat>, prefix: seq<nat>)
    requires Partial(rule, sizes, prefix)
    ensures forall row :: row in Rows(rule, sizes, prefix) <==> Completes(rule, sizes, prefix, row)
    ensures Ascending(Rows(rule, sizes, prefix))
    decreases |sizes| - |prefix|, 1, 0
  {
    if |prefix| < |sizes| {
      RowsFromExact(rule, sizes, prefix, 0);
    } else {
      forall row | Completes(rule, sizes, prefix, row)
        ensures row == prefix
      {
        assert row == row[..|prefix|];
      }
    }
  }

  lemma {:induction false} RowsFromExact(rule: Rule, sizes: seq<nat>, prefix: seq<nat>, i: nat)
    requires Partial(rule, sizes, prefix) && |prefix| < |sizes|
    ensures forall row :: row in RowsFrom(rule, sizes, prefix, i) <==>
                          Completes(rule, sizes, prefix, row) && row[|prefix|] >= i
    ensures Ascending(RowsFrom(rule, sizes, prefix, i))
    decreases |sizes| - |prefix|, 0, sizes[|prefix|] - i
  {
    if i < sizes[|prefix|] {
      var here := if Admissible(rule, prefix + [i]) then Rows(rule, sizes, prefix + [i]) else [];
      var later := RowsFrom(rule, sizes, prefix, i + 1);
      RowsFromExact(rule, sizes, prefix, i + 1);
      if Admissible(rule, prefix + [i]) {
        RowsExact(rule, sizes, prefix + [i]);
      }
      RowsHere(rule, sizes, prefix, i, here);
      HereAndLater(rule, sizes, prefix, i, here, later);
    }
  }

  lemma HereAndLater(rule: Rule, sizes: seq<nat>, prefix: seq<nat>, i: nat, here: seq<seq<nat>>, later: seq<seq<nat>>)
    requires |prefix| < |sizes| && Ascending(here) && Ascending(later)
    requires forall row :: row in here <==> Completes(rule, sizes, prefix, row) && row[|prefix|] == i
    requires forall row :: row in later <==> Completes(rule, sizes, prefix, row) && row[|prefix|] >= i + 1
    ensures forall row :: row in here + later <==> Completes(rule, sizes, prefix, row) && row[|prefix|] >= i
    ensures Ascending(here + later)
  {
    forall row
      ensures row in here + later <==> Completes(rule, sizes, prefix, row) && row[|prefix|] >= i
    {
      assert row in here + later <==> row in here || row in later;
    }
    HereBeforeLater(prefix, i, here, later);
    AscendingConcat(here, later);
  }

  /** The completions of `prefix + [i]` are those completions of `prefix` that go on with `i`. */
  lemma RowsHere(rule: Rule, sizes: seq<nat>, prefix: seq<nat>, i: nat, here: seq<seq<nat>>)
    requires Partial(rule, sizes, prefix) && |prefix| < |sizes|
    requires !Admissible(rule, prefix + [i]) ==> here == []
    requires Admissible(rule, prefix + [i]) ==>
               forall row :: row in here <==> Completes(rule, sizes, prefix + [i], row)
    ensures forall row :: row in here <==> Completes(rule, sizes, prefix, row) && row[|prefix|] == i
  {
    forall row
      ensures row in here <==> Completes(rule, sizes, prefix, row) && row[|prefix|] == i
    {
      if |row| == |sizes| && prefix <= row {
        NextEntry(rule, sizes, prefix, row, i);
      } else if prefix + [i] <= row {
        assert prefix == row[..|prefix|];
      }
    }
  }

  lemma HereBeforeLater(prefix: seq<nat>, i: nat, here: seq<seq<nat>>, later: seq<seq<nat>>)
    requires forall row :: row in here ==> |row| > |prefix| && prefix <= row && row[|prefix|] == i
    requires forall row :: row in later ==> |row| > |prefix| && prefix <= row && row[|prefix|] > i
    ensures forall a, b :: 0 <= a < |here| && 0 <= b < |later| ==> LexLess(here[a], later[b])
  {
    forall a, b | 0 <= a < |here| && 0 <= b < |later|
      ensures LexLess(here[a], later[b])
    {
      assert here[a] in here && later[b] in later;
      assert here[a][..|prefix|] == prefix == later[b][..|prefix|];
    }
  }

  lemma NextEntry(rule: Rule, sizes: seq<nat>, prefix: seq<nat>, row: seq<nat>, i: nat)
    requires |prefix| < |sizes| == |row| && prefix <= row
    ensures prefix + [i] <= row <==> row[|prefix|] == i
    ensures Admissible(rule, row) && row[|prefix|] == i ==> Admissible(rule, prefix + [i])
  {
    if row[|prefix|] == i {
      assert prefix + [i] == row[..|prefix| + 1];
    }
  }

  lemma AscendingConcat(a: seq<seq<nat>>, b: seq<seq<nat>>)
    requires Ascending(a) && Ascending(b)
    requires forall i, j :: 0 <= i < |a| && 0 <= j < |b| ==> LexLess(a[i], b[j])
    ensures Ascending(a + b)
  {
  }

  /** An ascending list repeats nothing, so a listing that is exact and ascending is the only one. */
  lemma {:induction false} AscendingUnique(a: seq<seq<nat>>, b: seq<seq<nat>>)
    requires Ascending(a) && Ascending(b)
    requires forall row :: row in a <==> row in b
    ensures a == b
  {
    if |a| > 0 {
      assert a[0] in a;
    }
    if |b| > 0 {
      assert b[0] in b;
    }
    if |a| > 0 && |b| > 0 {
      LexAsymmetric(a[0], b[0]);
      forall row
        ensures row in a[1..] <==> row in b[1..]
      {
        InTail(a, row);
        InTail(b, row);
      }
      AscendingUnique(a[1..], b[1..]);
    }
  }

  lemma InTail(rows: seq<seq<nat>>, row: seq<nat>)
    requires rows != [] && Ascending(rows)
    ensures row in rows[1..] <==> row in rows && row != rows[0]
  {
    if row in rows[1..] {
      var j :| 0 <= j < |rows[1..]| && rows[1..][j] == row;
      assert rows[j + 1] == row && LexLess(rows[0], rows[j + 1]);
      LexAsymmetric(row, row);
    }
  }

  lemma LexAsymmetric(a: seq<nat>, b: seq<nat>)
    ensures !(LexLess(a, b) && LexLess(b, a))
  {
    if LexLess(a, b) {
      var p :| 0 <= p < |a| && p < |b| && a[..p] == b[..p] && a[p] < b[p];
      forall q | 0 <= q < |b| && q < |a|
        ensures !(b[..q] == a[..q] && b[q] < a[q])
      {
        if p < q {
          assert b[..q][p] == b[p] && a[..q][p] == a[p];
        } else if q < p {
          assert a[..p][q] == a[q] && b[..p][q] == b[q];
        }
      }
    }
  }

  // ---------------------------------------------------------------------------------------------
  // How many rows there are
  // ---------------------------------------------------------------------------------------------

  function Same(n: nat, k: nat): (sizes: seq<nat>)
    ensures |sizes| == k
  {
    seq(k, _ => n)
  }

  function Product(sizes: seq<nat>): nat {
    if sizes == [] then 1 else sizes[0] * Product(sizes[1..])
  }

  function Falling(n: nat, k: nat): nat {
    if k == 0 then 1 else if n == 0 then 0 else n * Falling(n - 1, k - 1)
  }

  /** Pascal's rule. */
  function Choose(n: nat, k: nat): nat {
    if k == 0 then 1 else if n == 0 then 0 else Choose(n - 1, k - 1) + Choose(n - 1, k)
  }

  lemma AdmissibleSnoc(rule: Rule, prefix: seq<nat>, i: nat)
    requires Admissible(rule, prefix)
    ensures Admissible(rule, prefix + [i]) <==> forall j :: 0 <= j < |prefix| ==> Pairwise(rule, prefix[j], i)
  {
    if Admissible(rule, prefix + [i]) {
      forall j | 0 <= j < |prefix|
        ensures Pairwise(rule, prefix[j], i)
      {
        assert Pairwise(rule, (prefix + [i])[j], (prefix + [i])[|prefix|]);
      }
    }
  }

  lemma OneMore(count: nat, each: nat)
    ensures (count + 1) * each == each + count * each
  {
  }

  lemma {:induction false} CountAny(sizes: seq<nat>, prefix: seq<nat>)
    requires Fits(sizes, prefix)
    ensures |Rows(Any, sizes, prefix)| == Product(sizes[|prefix|..])
    decreases |sizes| - |prefix|, 1, 0
  {
    if |prefix| < |sizes| {
      CountAnyFrom(sizes, prefix, 0);
    }
  }

  lemma {:induction false} CountAnyFrom(sizes: seq<nat>, prefix: seq<nat>, i: nat)
    requires Fits(sizes, prefix) && |prefix| < |sizes| && i <= sizes[|prefix|]
    ensures |RowsFrom(Any, sizes, prefix, i)| == (sizes[|prefix|] - i) * Product(sizes[|prefix| + 1..])
    decreases |sizes| - |prefix|, 0, sizes[|prefix|] - i
  {
    var d, rest := |prefix|, Product(sizes[|prefix| + 1..]);
    if i < sizes[d] {
      CountAny(sizes, prefix + [i]);
      CountAnyFrom(sizes, prefix, i + 1);
      OneMore(sizes[d] - (i + 1), rest);
    }
  }

  /** Where an increasing row may go on after `prefix`. */
  function Start(prefix: seq<nat>, strict: bool): nat {
    if prefix == [] then 0 else if strict then prefix[|prefix| - 1] + 1 else prefix[|prefix| - 1]
  }

  lemma AscendsFrom(prefix: seq<nat>, strict: bool, i: nat)
    requires Admissible(if strict then Increasing else NonDecreasing, prefix)
    ensures Admissible(if strict then Increasing else NonDecreasing, prefix + [i]) <==> i >= Start(prefix, strict)
  {
    AdmissibleSnoc(if strict then Increasing else NonDecreasing, prefix, i);
  }

  lemma {:induction false} CountIncreasing(n: nat, k: nat, prefix: seq<nat>)
    requires Partial(Increasing, Same(n, k), prefix) && Start(prefix, true) <= n
    ensures |Rows(Increasing, Same(n, k), prefix)| == Choose(n - Start(prefix, true), k - |prefix|)
    decreases k - |prefix|, 1, 0
  {
    if |prefix| < k {
      CountIncreasingFrom(n, k, prefix, 0);
    }
  }

  lemma {:induction false} CountIncreasingFrom(n: nat, k: nat, prefix: seq<nat>, i: nat)
    requires Partial(Increasing, Same(n, k), prefix) && |prefix| < k && Start(prefix, true) <= n && i <= n
    ensures
      var from := if i < Start(prefix, true) then Start(prefix, true) else i;
      |RowsFrom(Increasing, Same(n, k), prefix, i)| == Choose(n - from, k - |prefix|)
    decreases k - |prefix|, 0, n - i
  {
    if i == n {
    } else {
      AscendsFrom(prefix, true, i);
      CountIncreasingFrom(n, k, prefix, i + 1);
      if i >= Start(prefix, true) {
        CountIncreasing(n, k, prefix + [i]);
      }
    }
  }

  lemma {:induction false} CountNonDecreasing(n: nat, k: nat, prefix: seq<nat>)
    requires Partial(NonDecreasing, Same(n, k), prefix) && Start(prefix, false) <= n && (|prefix| < k ==> n > 0)
    ensures |Rows(NonDecreasing, Same(n, k), prefix)| ==
            if |prefix| == k then 1 else Choose(n - Start(prefix, false) + (k - |prefix|) - 1, k - |prefix|)
    decreases k - |prefix|, 1, 0
  {
    if |prefix| < k {
      CountNonDecreasingFrom(n, k, prefix, 0);
    }
  }

  lemma {:induction false} CountNonDecreasingFrom(n: nat, k: nat, prefix: seq<nat>, i: nat)
    requires Partial(NonDecreasing, Same(n, k), prefix) && |prefix| < k && Start(prefix, false) <= n && i <= n
    ensures
      var from := if i < Start(prefix, false) then Start(prefix, false) else i;
      |RowsFrom(NonDecreasing, Same(n, k), prefix, i)| == Choose(n - from + (k - |prefix|) - 1, k - |prefix|)
    decreases k - |prefix|, 0, n - i
  {
    if i < n {
      AscendsFrom(prefix, false, i);
      CountNonDecreasingFrom(n, k, prefix, i + 1);
      if i >= Start(prefix, false) {
        CountNonDecreasing(n, k, prefix + [i]);
      }
    } else {
      ChooseTooMany(k - |prefix| - 1, k - |prefix|);
    }
  }

  lemma {:induction false} ChooseTooMany(n: nat, k: nat)
    requires n < k
    ensures Choose(n, k) == 0
  {
    if n == 0 {
    } else {
      ChooseTooMany(n - 1, k - 1);
      ChooseTooMany(n - 1, k);
    }
  }

  /** How many of `i`, .., `n - 1` the prefix has not used. */
  function Unused(prefix: seq<nat>, i: nat, n: nat): nat
    decreases n - i
  {
    if i >= n then 0 else (if i in prefix then 0 else 1) + Unused(prefix, i + 1, n)
  }

  lemma {:induction false} UnusedNone(prefix: seq<nat>, i: nat, n: nat)
    requires prefix == [] && i <= n
    ensures Unused(prefix, i, n) == n - i
    decreases n - i
  {
    if i == n {
    } else {
      UnusedNone(prefix, i + 1, n);
    }
  }

  lemma {:induction false} UnusedSnoc(prefix: seq<nat>, x: nat, i: nat, n: nat)
    requires x !in prefix && i <= n && x < n
    ensures Unused(prefix + [x], i, n) == Unused(prefix, i, n) - if x >= i then 1 else 0
    decreases n - i
  {
    if i == n {
    } else {
      UnusedSnoc(prefix, x, i + 1, n);
    }
  }

  lemma {:induction false} UnusedCount(prefix: seq<nat>, n: nat)
    requires Admissible(Distinct, prefix) && forall j :: 0 <= j < |prefix| ==> prefix[j] < n
    ensures |prefix| <= n && Unused(prefix, 0, n) == n - |prefix|
  {
    if prefix == [] {
      UnusedNone(prefix, 0, n);
    } else {
      var init, x := prefix[..|prefix| - 1], prefix[|prefix| - 1];
      assert prefix == init + [x];
      forall j | 0 <= j < |init|
        ensures init[j] != x
      {
        assert Pairwise(Distinct, prefix[j], prefix[|prefix| - 1]);
      }
      UnusedCount(init, n);
      UnusedSnoc(init, x, 0, n);
    }
  }

  lemma {:induction false} CountDistinct(n: nat, k: nat, prefix: seq<nat>)
    requires Partial(Distinct, Same(n, k), prefix) && |prefix| <= n
    ensures |Rows(Distinct, Same(n, k), prefix)| == Falling(n - |prefix|, k - |prefix|)
    decreases k - |prefix|, 1, 0
  {
    if |prefix| < k {
      UnusedCount(prefix, n);
      CountDistinctFrom(n, k, prefix, 0);
    }
  }

  lemma {:induction false} CountDistinctFrom(n: nat, k: nat, prefix: seq<nat>, i: nat)
    requires Partial(Distinct, Same(n, k), prefix) && |prefix| < k && |prefix| <= n && i <= n
    ensures |RowsFrom(Distinct, Same(n, k), prefix, i)| ==
            if |prefix| == n then 0 else Unused(prefix, i, n) * Falling(n - |prefix| - 1, k - |prefix| - 1)
    decreases k - |prefix|, 0, n - i
  {
    if i == n {
    } else {
      AdmissibleSnoc(Distinct, prefix, i);
      CountDistinctFrom(n, k, prefix, i + 1);
      if i !in prefix {
        UnusedCount(prefix + [i], n);
        CountDistinct(n, k, prefix + [i]);
        OneMore(Unused(prefix, i + 1, n), Falling(n - |prefix| - 1, k - |prefix| - 1));
      }
    }
  }

  function Power(n: nat, k: nat): nat {
    if k == 0 then 1 else n * Power(n, k - 1)
  }

  lemma {:induction false} ProductIsPower(n: nat, k: nat)
    ensures Product(Same(n, k)) == Power(n, k)
  {
    if k == 0 {
    } else {
      assert Same(n, k)[1..] == Same(n, k - 1);
      ProductIsPower(n, k - 1);
    }
  }

  lemma {:induction false} FallingTooMany(n: nat, k: nat)
    requires n < k
    ensures Falling(n, k) == 0
  {
    if n == 0 {
    } else {
      FallingTooMany(n - 1, k - 1);
    }
  }

  /** How many rows of length `k` over `n` indices each rule admits. */
  function Expected(rule: Rule, n: nat, k: nat): nat {
    match rule
    case Any => Power(n, k)
    case Distinct => Falling(n, k)
    case Increasing => Choose(n, k)
    case NonDecreasing => if k == 0 then 1 else Choose(n + k - 1, k)
  }

  lemma CountListing(rule: Rule, n: nat, k: nat)
    ensures |Rows(rule, Same(n, k), [])| == Expected(rule, n, k)
  {
    if rule == Any {
      CountAny(Same(n, k), []);
      ProductIsPower(n, k);
      assert Same(n, k)[0..] == Same(n, k);
    } else if rule == Distinct {
      CountDistinct(n, k, []);
    } else if rule == Increasing {
      CountIncreasing(n, k, []);
    } else if n > 0 || k == 0 {
      CountNonDecreasing(n, k, []);
    } else {
      ChooseTooMany(k - 1, k);
    }
  }

  function Fact(n: nat): (f: nat)
    ensures f > 0
  {
    if n == 0 then 1 else n * Fact(n - 1)
  }

  lemma {:induction false} FallingByFact(n: nat, k: nat)
    requires k <= n
    ensures Falling(n, k) * Fact(n - k) == Fact(n)
  {
    if k == 0 {
    } else {
      FallingByFact(n - 1, k - 1);
      Arithmetic.MulAssociates(n, Falling(n - 1, k - 1), Fact(n - k));
    }
  }

  /** `a` and `b` are the two parents in Pascal's triangle, `f` is (n-1)!, and n == k + m. */
  lemma PascalStep(a: nat, b: nat, k: nat, m: nat, fk: nat, fm: nat, f: nat)
    requires a * (fk * (m * fm)) == f && b * ((k * fk) * fm) == f
    ensures (a + b) * ((k * fk) * (m * fm)) == (k + m) * f
  {
    assert a * ((k * fk) * (m * fm)) == k * (a * (fk * (m * fm)));
    assert b * ((k * fk) * (m * fm)) == m * (b * ((k * fk) * fm));
  }

  lemma {:induction false} ChooseByFact(n: nat, k: nat)
    requires k <= n
    ensures Choose(n, k) * (Fact(k) * Fact(n - k)) == Fact(n)
  {
    if k == 0 {
    } else if k == n {
      ChooseAll(n);
    } else {
      ChooseByFact(n - 1, k - 1);
      ChooseByFact(n - 1, k);
      var m := n - k;
      assert Fact(k) == k * Fact(k - 1) && Fact(m) == m * Fact(m - 1) && Fact(n) == n * Fact(n - 1);
      PascalStep(Choose(n - 1, k - 1), Choose(n - 1, k), k, m, Fact(k - 1), Fact(m - 1), Fact(n - 1));
    }
  }

  lemma {:induction false} ChooseAll(n: nat)
    ensures Choose(n, n) == 1
  {
    if n == 0 {
    } else {
      ChooseAll(n - 1);
      ChooseTooMany(n - 1, n);
    }
  }

  /** The counts in factorials, multiplied out; where no row can be long enough there is none. */
  lemma CountByFact(n: nat, k: nat)
    ensures
      var rows := |Rows(Distinct, Same(n, k), [])|;
      if k <= n then rows * Fact(n - k) == Fact(n) else rows == 0
    ensures
      var rows := |Rows(Increasing, Same(n, k), [])|;
      if k <= n then rows * (Fact(k) * Fact(n - k)) == Fact(n) else rows == 0
    ensures
      var rows := |Rows(NonDecreasing, Same(n, k), [])|;
      if n > 0 then rows * (Fact(k) * Fact(n - 1)) == Fact(n + k - 1) else rows == if k == 0 then 1 else 0
  {
    CountListing(Distinct, n, k);
    CountListing(Increasing, n, k);
    CountListing(NonDecreasing, n, k);
    if k <= n {
      FallingByFact(n, k);
      ChooseByFact(n, k);
    } else {
      FallingTooMany(n, k);
      ChooseTooMany(n, k);
    }
    if n > 0 {
      ChooseByFact(n + k - 1, k);
    } else if k > 0 {
      ChooseTooMany(k - 1, k);
    }
  }

  /**
    * The listing of a rule holds every admissible row of `k` indices below `n`, holds it once, in
    * lexicographic order, and nothing else; and there are as many rows as the formula says.
    */
  lemma ListingExact(rule: Rule, n: nat, k: nat)
    ensures forall row :: row in Rows(rule, Same(n, k), []) <==>
                          |row| == k && (forall i :: 0 <= i < k ==> row[i] < n) && Admissible(rule, row)
    ensures Ascending(Rows(rule, Same(n, k), []))
    ensures |Rows(rule, Same(n, k), [])| == Expected(rule, n, k)
  {
    RowsExact(rule, Same(n, k), []);
    CountListing(rule, n, k);
    forall row: seq<nat>
      ensures Completes(rule, Same(n, k), [], row) <==>
              |row| == k && (forall i :: 0 <= i < k ==> row[i] < n) && Admissible(rule, row)
    {
    }
  }

  // ---------------------------------------------------------------------------------------------
  // From index rows to rows of values
  // ---------------------------------------------------------------------------------------------

  function Sizes<V>(pools: seq<seq<V>>): (sizes: seq<nat>)
    ensures |sizes| == |pools|
  {
    seq(|pools|, i requires 0 <= i < |pools| => |pools[i]|)
  }

  function Repeat<V>(elems: seq<V>, k: nat): (pools: seq<seq<V>>)
    ensures |pools| == k && Sizes(pools) == Same(|elems|, k)
  {
    seq(k, _ => elems)
  }

  /** Entry `i` of the row picks from pool `i`. */
  function Pick<V>(pools: seq<seq<V>>, row: seq<nat>): (r: seq<V>)
    requires Fits(Sizes(pools), row)
    ensures |r| == |row|
  {
    seq(|row|, i requires 0 <= i < |row| => pools[i][row[i]])
  }

  function PickAll<V>(pools: seq<seq<V>>, rows: seq<seq<nat>>): (r: seq<seq<V>>)
    requires forall i :: 0 <= i < |rows| ==> Fits(Sizes(pools), rows[i])
    ensures |r| == |rows|
  {
    seq(|rows|, i requires 0 <= i < |rows| => Pick(pools, rows[i]))
  }

  lemma RowsFit(rule: Rule, sizes: seq<nat>, prefix: seq<nat>, i: nat)
    requires Partial(rule, sizes, prefix)
    ensures forall j :: 0 <= j < |Rows(rule, sizes, prefix)| ==> Fits(sizes, Rows(rule, sizes, prefix)[j])
    ensures |prefix| < |sizes| ==>
              forall j :: 0 <= j < |RowsFrom(rule, sizes, prefix, i)| ==>
                            Fits(sizes, RowsFrom(rule, sizes, prefix, i)[j])
  {
    RowsExact(rule, sizes, prefix);
    forall j | 0 <= j < |Rows(rule, sizes, prefix)|
      ensures Fits(sizes, Rows(rule, sizes, prefix)[j])
    {
      assert Rows(rule, sizes, prefix)[j] in Rows(rule, sizes, prefix);
    }
    if |prefix| < |sizes| {
      RowsFromExact(rule, sizes, prefix, i);
      forall j | 0 <= j < |RowsFrom(rule, sizes, prefix, i)|
        ensures Fits(sizes, RowsFrom(rule, sizes, prefix, i)[j])
      {
        assert RowsFrom(rule, sizes, prefix, i)[j] in RowsFrom(rule, sizes, prefix, i);
      }
    }
  }

  /** What an enumerator has to push once its buffer holds `prefix`. */
  ghost function Listing<V>(rule: Rule, pools: seq<seq<V>>, prefix: seq<nat>): seq<seq<V>>
    requires Partial(rule, Sizes(pools), prefix)
  {
    RowsFit(rule, Sizes(pools), prefix, 0);
    PickAll(pools, Rows(rule, Sizes(pools), prefix))
  }

  ghost function ListingFrom<V>(rule: Rule, pools: seq<seq<V>>, prefix: seq<nat>, i: nat): seq<seq<V>>
    requires Partial(rule, Sizes(pools), prefix) && |prefix| < |pools|
  {
    RowsFit(rule, Sizes(pools), prefix, i);
    PickAll(pools, RowsFrom(rule, Sizes(pools), prefix, i))
  }

  lemma ListingBottom<V>(rule: Rule, pools: seq<seq<V>>, prefix: seq<nat>)
    requires Partial(rule, Sizes(pools), prefix) && |prefix| == |pools|
    ensures Listing(rule, pools, prefix) == [Pick(pools, prefix)]
  {
  }

  lemma ListingStep<V>(rule: Rule, pools: seq<seq<V>>, prefix: seq<nat>, i: nat)
    requires Partial(rule, Sizes(pools), prefix) && |prefix| < |pools| && i < |pools[|prefix|]|
    ensures
      ListingFrom(rule, pools, prefix, i) ==
      (if Admissible(rule, prefix + [i]) then Listing(rule, pools, prefix + [i]) else []) +
      ListingFrom(rule, pools, prefix, i + 1)
  {
  }

  /** `target` is still reached once the completions through entry `i` have been pushed. */
  lemma ListingAdvances<V>(rule: Rule, pools: seq<seq<V>>, prefix: seq<nat>, i: nat,
                           target: seq<seq<V>>, before: seq<seq<V>>, after: seq<seq<V>>)
    requires Partial(rule, Sizes(pools), prefix) && |prefix| < |pools| && i < |pools[|prefix|]|
    requires target == before + ListingFrom(rule, pools, prefix, i)
    requires after == before + if Admissible(rule, prefix + [i]) then Listing(rule, pools, prefix + [i]) else []
    ensures target == after + ListingFrom(rule, pools, prefix, i + 1)
  {
    ListingStep(rule, pools, prefix, i);
  }

  lemma ListingEnd<V>(rule: Rule, pools: seq<seq<V>>, prefix: seq<nat>, i: nat)
    requires Partial(rule, Sizes(pools), prefix) && |prefix| < |pools| && i >= |pools[|prefix|]|
    ensures ListingFrom(rule, pools, prefix, i) == []
  {
  }

  /** The ordered rules only start at `Start`: nothing is lost by starting the loop there. */
  lemma {:induction false} ListingSkips<V>(strict: bool, pools: seq<seq<V>>, prefix: seq<nat>, i: nat)
    requires
      var rule := if strict then Increasing else NonDecreasing;
      Partial(rule, Sizes(pools), prefix) && |prefix| < |pools| && i <= Start(prefix, strict) <= |pools[|prefix|]|
    ensures
      var rule := if strict then Increasing else NonDecreasing;
      ListingFrom(rule, pools, prefix, i) == ListingFrom(rule, pools, prefix, Start(prefix, strict))
    decreases Start(prefix, strict) - i
  {
    if i < Start(prefix, strict) {
      AscendsFrom(prefix, strict, i);
      ListingStep(if strict then Increasing else NonDecreasing, pools, prefix, i);
      ListingSkips(strict, pools, prefix, i + 1);
    }
  }

  // ---------------------------------------------------------------------------------------------
  // The recursions over a shared buffer
  // ---------------------------------------------------------------------------------------------

  /** The result array, to which rows are pushed. */
  class RowList<V> {
    var rows: seq<seq<V>>

    constructor ()
      ensures rows == []
    {
      rows := [];
    }

    method Push(row: seq<V>)
      modifies this
      ensures rows == old(rows) + [row]
    {
      rows := rows + [row];
    }
  }

  /** The first entries of the buffer are the values that `prefix` picks. */
  ghost predicate Holds<V>(current: array<V>, pools: seq<seq<V>>, prefix: seq<nat>)
    reads current
  {
    |prefix| <= current.Length && Fits(Sizes(pools), prefix) && current[..|prefix|] == Pick(pools, prefix)
  }

  method CopyRow<V>(current: array<V>, k: nat) returns (row: seq<V>)
    requires k <= current.Length
    ensures row == current[..k]
  {
    row := [];
    for i := 0 to k
      invariant row == current[..i]
    {
      row := row + [current[i]];
    }
  }

  lemma HoldsMore<V>(current: array<V>, pools: seq<seq<V>>, prefix: seq<nat>, i: nat)
    requires Holds(current, pools, prefix) && |prefix| < |pools| && |prefix| < current.Length
    requires i < |pools[|prefix|]| && current[|prefix|] == pools[|prefix|][i]
    ensures Holds(current, pools, prefix + [i])
  {
    assert current[..|prefix| + 1] == current[..|prefix|] + [current[|prefix|]];
    assert Pick(pools, prefix + [i]) == Pick(pools, prefix) + [pools[|prefix|][i]];
  }

  lemma KeepsPrefix<V>(current: array<V>, pools: seq<seq<V>>, prefix: seq<nat>, i: nat)
    requires Holds(current, pools, prefix + [i])
    ensures Holds(current, pools, prefix)
  {
    assert (prefix + [i])[..|prefix|] == prefix;
    assert current[..|prefix|] == current[..|prefix| + 1][..|prefix|];
    forall j | 0 <= j < |prefix|
      ensures prefix[j] < Sizes(pools)[j] && Pick(pools, prefix + [i])[j] == Pick(pools, prefix)[j]
    {
      assert (prefix + [i])[j] == prefix[j];
    }
    assert Pick(pools, prefix) == Pick(pools, prefix + [i])[..|prefix|];
  }

  method CombinationHelper<V>(elems: seq<V>, k: nat, start: nat, current: array<V>, depth: nat, result: RowList<V>,
                              ghost prefix: seq<nat>)
    requires depth == |prefix| <= k <= current.Length && start + (k - depth) <= |elems|
    requires Admissible(Increasing, prefix) && Holds(current, Repeat(elems, k), prefix)
    requires start == Start(prefix, true)
    modifies current, result
    ensures Holds(current, Repeat(elems, k), prefix) && current[..depth] == old(current[..depth])
    ensures result.rows == old(result.rows) + Listing(Increasing, Repeat(elems, k), prefix)
    decreases k - depth
  {
    ghost var pools := Repeat(elems, k);
    ghost var target := result.rows + Listing(Increasing, pools, prefix);
    if depth == k {
      var combo := CopyRow(current, k);
      result.Push(combo);
      ListingBottom(Increasing, pools, prefix);
      return;
    }
    ListingSkips(true, pools, prefix, 0);
    var i := start;
    while i <= |elems| - (k - depth)
      invariant start <= i <= |elems| - (k - depth) + 1
      invariant Holds(current, pools, prefix)
      invariant target == result.rows + ListingFrom(Increasing, pools, prefix, i)
      decreases |elems| - i
    {
      AscendsFrom(prefix, true, i);
      ghost var before := result.rows;
      current[depth] := elems[i];
      HoldsMore(current, pools, prefix, i);
      CombinationHelper(elems, k, i + 1, current, depth + 1, result, prefix + [i]);
      KeepsPrefix(current, pools, prefix, i);
      ListingAdvances(Increasing, pools, prefix, i, target, before, result.rows);
      i := i + 1;
    }
    CombinationsRunOut(elems, k, prefix, i);
  }

  /** Too few elements are left to complete the row: the loop may stop early. */
  lemma CombinationsRunOut<V>(elems: seq<V>, k: nat, prefix: seq<nat>, i: nat)
    requires Partial(Increasing, Same(|elems|, k), prefix) && |prefix| < k
    requires i >= Start(prefix, true) && i > |elems| - (k - |prefix|)
    ensures ListingFrom(Increasing, Repeat(elems, k), prefix, i) == []
  {
    if i >= |elems| {
      ListingEnd(Increasing, Repeat(elems, k), prefix, i);
    } else {
      CountIncreasingFrom(|elems|, k, prefix, i);
      ChooseTooMany(|elems| - i, k - |prefix|);
    }
  }

  method RepeatedCombinationHelper<V>(elems: seq<V>, k: nat, start: nat, current: array<V>, depth: nat,
                                      result: RowList<V>, ghost prefix: seq<nat>)
    requires depth == |prefix| <= k <= current.Length
    requires Admissible(NonDecreasing, prefix) && Holds(current, Repeat(elems, k), prefix)
    requires start == Start(prefix, false)
    modifies current, result
    ensures Holds(current, Repeat(elems, k), prefix) && current[..depth] == old(current[..depth])
    ensures result.rows == old(result.rows) + Listing(NonDecreasing, Repeat(elems, k), prefix)
    decreases k - depth
  {
    ghost var pools := Repeat(elems, k);
    ghost var target := result.rows + Listing(NonDecreasing, pools, prefix);
    if depth == k {
      var combo := CopyRow(current, k);
      result.Push(combo);
      ListingBottom(NonDecreasing, pools, prefix);
      return;
    }
    ListingSkips(false, pools, prefix, 0);
    for i := start to |elems|
      invariant Holds(current, pools, prefix)
      invariant target == result.rows + ListingFrom(NonDecreasing, pools, prefix, i)
    {
      AscendsFrom(prefix, false, i);
      ghost var before := result.rows;
      current[depth] := elems[i];
      HoldsMore(current, pools, prefix, i);
      RepeatedCombinationHelper(elems, k, i, current, depth + 1, result, prefix + [i]);
      KeepsPrefix(current, pools, prefix, i);
      ListingAdvances(NonDecreasing, pools, prefix, i, target, before, result.rows);
    }
    ListingEnd(NonDecreasing, pools, prefix, |elems|);
  }

  /** The flags record exactly the indices the buffer has used. */
  ghost predicate Marks(flags: seq<bool>, n: nat, prefix: seq<nat>) {
    n <= |flags| && forall i :: 0 <= i < n ==> (flags[i] <==> i in prefix)
  }

  lemma MarksMore(flags: seq<bool>, n: nat, prefix: seq<nat>, i: nat)
    requires Marks(flags, n, prefix) && i < n
    ensures Marks(flags[i := true], n, prefix + [i])
    ensures !flags[i] ==> flags[i := true][i := false] == flags
    ensures Admissible(Distinct, prefix) ==> (Admissible(Distinct, prefix + [i]) <==> !flags[i])
  {
    if Admissible(Distinct, prefix) {
      AdmissibleSnoc(Distinct, prefix, i);
    }
  }

  method PermutationHelper<V>(elems: seq<V>, k: nat, used: array<bool>, current: array<V>, depth: nat,
                              result: RowList<V>, ghost prefix: seq<nat>)
    requires depth == |prefix| <= k <= current.Length
    requires Admissible(Distinct, prefix) && Holds(current, Repeat(elems, k), prefix)
    requires Marks(used[..], |elems|, prefix)
    requires used as object != current as object
    modifies used, current, result
    ensures used[..] == old(used[..])
    ensures Holds(current, Repeat(elems, k), prefix) && current[..depth] == old(current[..depth])
    ensures result.rows == old(result.rows) + Listing(Distinct, Repeat(elems, k), prefix)
    decreases k - depth
  {
    ghost var pools := Repeat(elems, k);
    ghost var target := result.rows + Listing(Distinct, pools, prefix);
    if depth == k {
      var perm := CopyRow(current, k);
      result.Push(perm);
      ListingBottom(Distinct, pools, prefix);
      return;
    }
    for i := 0 to |elems|
      invariant used[..] == old(used[..])
      invariant Holds(current, pools, prefix)
      invariant target == result.rows + ListingFrom(Distinct, pools, prefix, i)
    {
      ghost var before := result.rows;
      MarksMore(used[..], |elems|, prefix, i);
      if !used[i] {
        ghost var flags := used[..];
        used[i] := true;
        assert used[..] == flags[i := true];
        current[depth] := elems[i];
        HoldsMore(current, pools, prefix, i);
        PermutationHelper(elems, k, used, current, depth + 1, result, prefix + [i]);
        KeepsPrefix(current, pools, prefix, i);
        used[i] := false;
        assert used[..] == flags[i := true][i := false];
      }
      ListingAdvances(Distinct, pools, prefix, i, target, before, result.rows);
    }
    ListingEnd(Distinct, pools, prefix, |elems|);
  }

  method RepeatedPermutationHelper<V>(elems: seq<V>, k: nat, current: array<V>, depth: nat, result: RowList<V>,
                                      ghost prefix: seq<nat>)
    requires depth == |prefix| <= k <= current.Length
    requires Holds(current, Repeat(elems, k), prefix)
    modifies current, result
    ensures Holds(current, Repeat(elems, k), prefix) && current[..depth] == old(current[..depth])
    ensures result.rows == old(result.rows) + Listing(Any, Repeat(elems, k), prefix)
    decreases k - depth
  {
    ghost var pools := Repeat(elems, k);
    ghost var target := result.rows + Listing(Any, pools, prefix);
    if depth == k {
      var perm := CopyRow(current, k);
      result.Push(perm);
      ListingBottom(Any, pools, prefix);
      return;
    }
    for i := 0 to |elems|
      invariant Holds(current, pools, prefix)
      invariant target == result.rows + ListingFrom(Any, pools, prefix, i)
    {
      ghost var before := result.rows;
      current[depth] := elems[i];
      HoldsMore(current, pools, prefix, i);
      RepeatedPermutationHelper(elems, k, current, depth + 1, result, prefix + [i]);
      KeepsPrefix(current, pools, prefix, i);
      ListingAdvances(Any, pools, prefix, i, target, before, result.rows);
    }
    ListingEnd(Any, pools, prefix, |elems|);
  }

  method ProductHelper<V>(arrays: seq<seq<V>>, idx: nat, current: array<V>, result: RowList<V>, ghost prefix: seq<nat>)
    requires idx == |prefix| <= |arrays| <= current.Length
    requires Holds(current, arrays, prefix)
    modifies current, result
    ensures Holds(current, arrays, prefix) && current[..idx] == old(current[..idx])
    ensures result.rows == old(result.rows) + Listing(Any, arrays, prefix)
    decreases |arrays| - idx
  {
    ghost var target := result.rows + Listing(Any, arrays, prefix);
    if idx == |arrays| {
      var row := CopyRow(current, |arrays|);
      result.Push(row);
      ListingBottom(Any, arrays, prefix);
      return;
    }
    var arr := arrays[idx];
    for i := 0 to |arr|
      invariant Holds(current, arrays, prefix)
      invariant target == result.rows + ListingFrom(Any, arrays, prefix, i)
    {
      ghost var before := result.rows;
      current[idx] := arr[i];
      HoldsMore(current, arrays, prefix, i);
      ProductHelper(arrays, idx + 1, current, result, prefix + [i]);
      KeepsPrefix(current, arrays, prefix, i);
      ListingAdvances(Any, arrays, prefix, i, target, before, result.rows);
    }
    ListingEnd(Any, arrays, prefix, |arr|);
  }

  // ---------------------------------------------------------------------------------------------
  // The branches of `dispatch_array`
  // ---------------------------------------------------------------------------------------------

  const SLOTS := 64

  predicate Int64(n: int) {
    -0x8000_0000_0000_0000 <= n < 0x8000_0000_0000_0000
  }

  /** The cast to `size_t`. */
  function ToSize(n: int): nat
    requires Int64(n)
  {
    if n < 0 then n + 0x1_0000_0000_0000_0000 else n
  }

  lemma NoRoom<V>(rule: Rule, elems: seq<V>, k: nat)
    requires k > |elems| && (rule == Increasing || rule == Distinct)
    ensures Listing(rule, Repeat(elems, k), []) == []
  {
    ListingExact(rule, |elems|, k);
    ChooseTooMany(|elems|, k);
    FallingTooMany(|elems|, k);
  }

  lemma EmptyRow<V>(rule: Rule, pools: seq<seq<V>>)
    requires |pools| == 0
    ensures Listing(rule, pools, []) == [[]]
  {
    ListingBottom(rule, pools, []);
  }

  method Combination<V(0)>(elems: seq<V>, arg: int) returns (rows: seq<seq<V>>)
    requires Int64(arg) && |elems| < 0x8000_0000_0000_0000
    requires ToSize(arg) <= |elems| ==> ToSize(arg) <= SLOTS
    ensures arg >= 0 ==> rows == Listing(Increasing, Repeat(elems, arg), [])
    ensures arg < 0 ==> rows == []
  {
    var k := ToSize(arg);
    var result := new RowList<V>();
    if k == 0 {
      result.Push([]);
      EmptyRow(Increasing, Repeat(elems, k));
    } else if k <= |elems| {
      var current := new V[SLOTS];
      CombinationHelper(elems, k, 0, current, 0, result, []);
    } else {
      NoRoom(Increasing, elems, k);
    }
    rows := result.rows;
  }

  method Permutation<V(0)>(elems: seq<V>, arg: int) returns (rows: seq<seq<V>>)
    requires Int64(arg) && |elems| < 0x8000_0000_0000_0000
    requires 0 < ToSize(arg) <= |elems| ==> |elems| <= SLOTS
    ensures arg >= 0 ==> rows == Listing(Distinct, Repeat(elems, arg), [])
    ensures arg < 0 ==> rows == []
  {
    var k := ToSize(arg);
    var result := new RowList<V>();
    if k == 0 {
      result.Push([]);
      EmptyRow(Distinct, Repeat(elems, k));
    } else if k <= |elems| {
      var used := new bool[SLOTS](_ => false);
      var current := new V[SLOTS];
      PermutationHelper(elems, k, used, current, 0, result, []);
    } else {
      NoRoom(Distinct, elems, k);
    }
    rows := result.rows;
  }

  method RepeatedCombination<V(0)>(elems: seq<V>, k: nat) returns (rows: seq<seq<V>>)
    requires elems != [] ==> k <= SLOTS
    ensures rows == Listing(NonDecreasing, Repeat(elems, k), [])
  {
    var result := new RowList<V>();
    if k == 0 {
      result.Push([]);
      EmptyRow(NonDecreasing, Repeat(elems, k));
    } else if |elems| > 0 {
      var current := new V[SLOTS];
      RepeatedCombinationHelper(elems, k, 0, current, 0, result, []);
    } else {
      ListingEnd(NonDecreasing, Repeat(elems, k), [], 0);
    }
    rows := result.rows;
  }

  method RepeatedPermutation<V(0)>(elems: seq<V>, k: nat) returns (rows: seq<seq<V>>)
    requires elems != [] ==> k <= SLOTS
    ensures rows == Listing(Any, Repeat(elems, k), [])
  {
    var result := new RowList<V>();
    if k == 0 {
      result.Push([]);
      EmptyRow(Any, Repeat(elems, k));
    } else if |elems| > 0 {
      var current := new V[SLOTS];
      RepeatedPermutationHelper(elems, k, current, 0, result, []);
    } else {
      ListingEnd(Any, Repeat(elems, k), [], 0);
    }
    rows := result.rows;
  }

  /** The receiver and the first 64 arguments; any further argument is ignored. */
  function ProductPools<V>(recv: seq<V>, args: seq<seq<V>>): seq<seq<V>> {
    [recv] + if |args| <= SLOTS then args else args[..SLOTS]
  }

  method ProductOf<V(0)>(recv: seq<V>, args: seq<seq<V>>) returns (rows: seq<seq<V>>)
    ensures rows == Listing(Any, ProductPools(recv, args), [])
  {
    var arrays := [recv];
    for i := 0 to |args|
      invariant arrays == [recv] + if i <= SLOTS then args[..i] else args[..SLOTS]
    {
      if |arrays| < SLOTS + 1 {
        arrays := arrays + [args[i]];
      }
    }
    assert args[..|args|] == args;
    var result := new RowList<V>();
    var current := new V[SLOTS + 1];
    ProductHelper(arrays, 0, current, result, []);
    rows := result.rows;
  }

  /** The array times itself, `k` factors in all, lists what `repeated_permutation(k)` lists, in the same order. */
  lemma ProductOfItself<V>(elems: seq<V>, k: nat)
    requires 1 <= k <= SLOTS
    ensures Listing(Any, ProductPools(elems, Repeat(elems, k - 1)), []) == Listing(Any, Repeat(elems, k), [])
    ensures |Listing(Any, Repeat(elems, k), [])| == Power(|elems|, k)
  {
    assert ProductPools(elems, Repeat(elems, k - 1)) == Repeat(elems, k);
    ListingExact(Any, |elems|, k);
  }

  // ---------------------------------------------------------------------------------------------
  // The values that are listed
  // ---------------------------------------------------------------------------------------------

  /** Row `r` of a listing holds, at `i`, the value of pool `i` at the index in `idx`. */
  ghost predicate Values<V>(rows: seq<seq<V>>, pools: seq<seq<V>>, idx: seq<seq<nat>>) {
    && |rows| == |idx|
    && forall r, i :: 0 <= r < |rows| && 0 <= i < |pools| ==>
      |rows[r]| == |idx[r]| == |pools| && idx[r][i] < |pools[i]| && rows[r][i] == pools[i][idx[r][i]]
  }

  /** What each rule asks of a row of indices. */
  ghost predicate Obeys(rule: Rule, row: seq<nat>) {
    && (rule == Distinct ==> forall i, j :: 0 <= i < j < |row| ==> row[i] != row[j])
    && (rule == Increasing ==> forall i, j :: 0 <= i < j < |row| ==> row[i] < row[j])
    && (rule == NonDecreasing ==> forall i, j :: 0 <= i < j < |row| ==> row[i] <= row[j])
  }

  /** A listing holds the values at every row of indices that obeys its rule, row after row in dictionary order. */
  lemma ListedValues<V>(rule: Rule, pools: seq<seq<V>>) returns (idx: seq<seq<nat>>)
    ensures forall row :: row in idx <==>
                          |row| == |pools| && (forall i :: 0 <= i < |row| ==> row[i] < |pools[i]|) && Obeys(rule, row)
    ensures forall r, s :: 0 <= r < s < |idx| ==> Precedes(idx[r], idx[s])
    ensures Values(Listing(rule, pools, []), pools, idx)
  {
    var sizes := Sizes(pools);
    idx := Rows(rule, sizes, []);
    RowsExact(rule, sizes, []);
    RowsFit(rule, sizes, [], 0);
    forall row: seq<nat>
      ensures row in idx <==>
              |row| == |pools| && (forall i :: 0 <= i < |row| ==> row[i] < |pools[i]|) && Obeys(rule, row)
    {
      assert row in idx <==> Completes(rule, sizes, [], row);
      ObeysIsAdmissible(rule, row);
    }
    forall r | 0 <= r < |idx|
      ensures |idx[r]| == |pools|
    {
      assert idx[r] in idx;
    }
    forall r, s | 0 <= r < s < |idx|
      ensures Precedes(idx[r], idx[s])
    {
      assert LexLess(idx[r], idx[s]);
      LexPrecedes(idx[r], idx[s]);
    }
  }

  /** The first index in which two rows differ is smaller in `a`. */
  ghost predicate Precedes(a: seq<nat>, b: seq<nat>) {
    exists p :: 0 <= p < |a| && p < |b| && a[p] < b[p] && forall q :: 0 <= q < p ==> a[q] == b[q]
  }

  lemma LexPrecedes(a: seq<nat>, b: seq<nat>)
    requires LexLess(a, b)
    ensures Precedes(a, b)
  {
    var p :| 0 <= p < |a| && p < |b| && a[..p] == b[..p] && a[p] < b[p];
    forall q | 0 <= q < p
      ensures a[q] == b[q]
    {
      assert a[..p][q] == b[..p][q];
    }
  }

  lemma ObeysIsAdmissible(rule: Rule, row: seq<nat>)
    ensures Obeys(rule, row) <==> Admissible(rule, row)
  {
  }

  /** `[1, 2, 3].combination(2)` */
  method TwoOfThree() returns (rows: seq<seq<int>>)
    ensures rows == [[1, 2], [1, 3], [2, 3]]
  {
    rows := Combination([1, 2, 3], 2);
    ghost var idx := [[0, 1], [0, 2], [1, 2]];
    TwoOfThreeRows(idx);
    PickThree(Repeat([1, 2, 3], 2), idx);
  }

  lemma PickThree(pools: seq<seq<int>>, idx: seq<seq<nat>>)
    requires pools == [[1, 2, 3], [1, 2, 3]] && idx == [[0, 1], [0, 2], [1, 2]]
    ensures Fits(Sizes(pools), idx[0]) && Fits(Sizes(pools), idx[1]) && Fits(Sizes(pools), idx[2])
    ensures PickAll(pools, idx) == [[1, 2], [1, 3], [2, 3]]
  {
    assert Pick(pools, idx[0]) == [1, 2] && Pick(pools, idx[1]) == [1, 3] && Pick(pools, idx[2]) == [2, 3];
  }

  lemma TwoOfThreeRows(rows: seq<seq<nat>>)
    requires rows == [[0, 1], [0, 2], [1, 2]]
    ensures Rows(Increasing, Same(3, 2), []) == rows
  {
    var all := Rows(Increasing, Same(3, 2), []);
    forall row: seq<nat>
      ensures row in all <==> row in rows
    {
      OneOfThree(row, rows);
    }
    ThreeAscend(rows[0], rows[1], rows[2]);
    RowsExact(Increasing, Same(3, 2), []);
    AscendingUnique(all, rows);
  }

  lemma OneOfThree(row: seq<nat>, rows: seq<seq<nat>>)
    requires rows == [[0, 1], [0, 2], [1, 2]]
    ensures row in Rows(Increasing, Same(3, 2), []) <==> row in rows
  {
    TwoIncreasing(row);
    if |row| == 2 {
      assert row == [row[0], row[1]];
    }
  }

  lemma TwoIncreasing(row: seq<nat>)
    ensures row in Rows(Increasing, Same(3, 2), []) <==> |row| == 2 && row[0] < row[1] < 3
  {
    ListingExact(Increasing, 3, 2);
    if |row| == 2 {
      assert Admissible(Increasing, row) <==> Pairwise(Increasing, row[0], row[1]);
    }
  }

  lemma ThreeAscend(a: seq<nat>, b: seq<nat>, d: seq<nat>)
    requires a == [0, 1] && b == [0, 2] && d == [1, 2]
    ensures Ascending([a, b, d])
  {
    assert a[..1] == b[..1] && a[1] < b[1] && LexLess(a, b);
    assert a[..0] == d[..0] && a[0] < d[0] && LexLess(a, d);
    assert b[..0] == d[..0] && b[0] < d[0] && LexLess(b, d);
  }
}
