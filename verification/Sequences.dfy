/** Facts about sequences shared by the other modules. */
module Sequences {
  lemma Associate<T>(a: seq<T>, b: seq<T>, c: seq<T>)
    ensures (a + b) + c == a + (b + c)
  {
  }

  /** `idx` lists, in order, the positions of `s` whose values satisfy `p`. */
  ghost predicate Positions<T>(idx: seq<nat>, s: seq<T>, p: T -> bool) {
    && (forall a, b :: 0 <= a < b < |idx| ==> idx[a] < idx[b])
    && (forall k :: 0 <= k < |idx| ==> idx[k] < |s| && p(s[idx[k]]))
    && (forall i: nat :: i < |s| && p(s[i]) ==> i in idx)
  }

  /** `r` holds the values at these positions. */
  ghost predicate Selects<T>(r: seq<T>, idx: seq<nat>, s: seq<T>) {
    |r| == |idx| && forall k :: 0 <= k < |r| ==> idx[k] < |s| && r[k] == s[idx[k]]
  }

  lemma PositionsSnoc<T>(idx: seq<nat>, s: seq<T>, x: T, p: T -> bool)
    requires Positions(idx, s, p)
    ensures Positions(if p(x) then idx + [|s|] else idx, s + [x], p)
  {
    var more, t := if p(x) then idx + [|s|] else idx, s + [x];
    forall i: nat | i < |t| && p(t[i])
      ensures i in more
    {
      PositionIn(idx, s, x, p, i);
    }
    forall k | 0 <= k < |more|
      ensures more[k] < |t| && p(t[more[k]])
    {
      if k < |idx| {
        assert t[idx[k]] == s[idx[k]];
      }
    }
  }

  lemma PositionIn<T>(idx: seq<nat>, s: seq<T>, x: T, p: T -> bool, i: nat)
    requires Positions(idx, s, p) && i <= |s| && p((s + [x])[i])
    ensures i in idx || (i == |s| && p(x))
  {
    if i < |s| {
      assert (s + [x])[i] == s[i];
    }
  }

  lemma SelectsSnoc<T>(r: seq<T>, idx: seq<nat>, s: seq<T>, x: T)
    requires Selects(r, idx, s)
    ensures Selects(r, idx, s + [x]) && Selects(r + [x], idx + [|s|], s + [x])
  {
  }
}
