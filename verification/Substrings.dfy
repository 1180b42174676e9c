/**
  * Searching for a literal substring: `String#split`, `String#scan`, `String#gsub`/`sub` and
  * `Array#join`. A C string is the sequence of its characters before the terminating NUL.
  */
module Substrings {
  import opened Options
  import opened Sequences

  predicate OccursAt(s: string, sep: string, i: nat) {
    i + |sep| <= |s| && Agree(s, sep, i, 0)
  }

  /** The characters from `i + k` on are those of `sep` from `k` on. */
  predicate Agree(s: string, sep: string, i: nat, k: nat)
    requires i + |sep| <= |s| && k <= |sep|
    decreases |sep| - k
  {
    k == |sep| || (s[i + k] == sep[k] && Agree(s, sep, i, k + 1))
  }

  lemma {:induction false} AgreeMeans(s: string, sep: string, i: nat, k: nat)
    requires i + |sep| <= |s| && k <= |sep|
    ensures Agree(s, sep, i, k) <==> forall j :: k <= j < |sep| ==> sep[j] == s[i..][j]
    decreases |sep| - k
  {
    if k == |sep| {
    } else {
      AgreeMeans(s, sep, i, k + 1);
      assert s[i..][k] == s[i + k];
    }
  }

  lemma OccursAsSlice(s: string, sep: string, i: nat)
    ensures OccursAt(s, sep, i) <==> i + |sep| <= |s| && s[i..i + |sep|] == sep
  {
    if i + |sep| <= |s| {
      AgreeMeans(s, sep, i, 0);
      assert forall j :: 0 <= j < |sep| ==> s[i..i + |sep|][j] == s[i..][j];
    }
  }

  /** `strstr` from position `p`. */
  function FirstFrom(s: string, sep: string, p: nat): (r: Option<nat>)
    requires |sep| > 0 && p <= |s|
    ensures r.Some? ==> p <= r.value && r.value + |sep| <= |s|
    decreases |s| - p
  {
    if p == |s| then None
    else if OccursAt(s, sep, p) then Some(p)
    else FirstFrom(s, sep, p + 1)
  }

  /** It finds the first occurrence, and nothing only if there is none. */
  lemma {:induction false} FirstFromFirst(s: string, sep: string, p: nat)
    requires |sep| > 0 && p <= |s|
    ensures
      var r := FirstFrom(s, sep, p);
      && (r.Some? ==> OccursAt(s, sep, r.value) && forall j: nat :: p <= j < r.value ==> !OccursAt(s, sep, j))
      && (r.None? ==> forall j: nat :: p <= j ==> !OccursAt(s, sep, j))
    decreases |s| - p
  {
    if p < |s| && !OccursAt(s, sep, p) {
      FirstFromFirst(s, sep, p + 1);
    }
  }

  /** A position that is an occurrence, with none before it, is what the search finds. */
  lemma FirstIs(s: string, sep: string, p: nat, i: nat)
    requires |sep| > 0 && p <= i && OccursAt(s, sep, i) && forall j: nat :: p <= j < i ==> !OccursAt(s, sep, j)
    ensures FirstFrom(s, sep, p) == Some(i)
  {
    FirstFromFirst(s, sep, p);
    var r := FirstFrom(s, sep, p);
    assert r.Some?;
    assert r.value >= i && r.value <= i;
  }

  // ---------------------------------------------------------------------------------------------
  // The cut of a string at a separator
  // ---------------------------------------------------------------------------------------------

  /** What lies between the occurrences found from left to right, starting at `p`. */
  function Pieces(s: string, sep: string, p: nat): (r: seq<string>)
    requires |sep| > 0 && p <= |s|
    ensures |r| > 0
    decreases |s| - p
  {
    var found := FirstFrom(s, sep, p);
    if found.None? then [s[p..]] else [s[p..found.value]] + Pieces(s, sep, found.value + |sep|)
  }

  function Join(pieces: seq<string>, sep: string): string {
    if |pieces| == 0 then ""
    else if |pieces| == 1 then pieces[0]
    else pieces[0] + sep + Join(pieces[1..], sep)
  }

  lemma {:induction false} JoinPieces(s: string, sep: string, p: nat)
    requires |sep| > 0 && p <= |s|
    ensures Join(Pieces(s, sep, p), sep) == s[p..]
    decreases |s| - p
  {
    FirstFromFirst(s, sep, p);
    var found := FirstFrom(s, sep, p);
    if found.Some? {
      var i := found.value;
      JoinPieces(s, sep, i + |sep|);
      OccursAsSlice(s, sep, i);
      var rest := Pieces(s, sep, i + |sep|);
      assert ([s[p..i]] + rest)[1..] == rest;
      assert s[p..] == s[p..i] + sep + s[i + |sep|..];
    }
  }

  /**
    * A cut is leftmost when the separator after each piece is the first occurrence from the start of
    * that piece, and the last piece holds none.
    */
  ghost predicate Leftmost(pieces: seq<string>, sep: string) {
    && |pieces| > 0
    && if |pieces| == 1 then Absent(pieces[0], sep) else EndsAtFirst(pieces[0], sep) && Leftmost(pieces[1..], sep)
  }

  ghost predicate EndsAtFirst(piece: string, sep: string) {
    forall j: nat :: j < |piece| ==> !OccursAt(piece + sep, sep, j)
  }

  ghost predicate Absent(piece: string, sep: string) {
    forall j: nat :: !OccursAt(piece, sep, j)
  }

  lemma SliceOfSlice(s: string, p: nat, q: nat, j: nat, n: nat)
    requires p + j + n <= q <= |s|
    ensures s[p..q][j..j + n] == s[p + j..p + j + n]
  {
    var t, u := s[p..q][j..j + n], s[p + j..p + j + n];
    forall k | 0 <= k < |t|
      ensures t[k] == u[k]
    {
      assert t[k] == s[p..q][j + k];
    }
  }

  lemma OccursInside(s: string, sep: string, p: nat, i: nat, j: nat)
    requires p + j <= i && i + |sep| <= |s|
    ensures OccursAt(s, sep, p + j) <==> OccursAt(s[p..i + |sep|], sep, j)
  {
    OccursAsSlice(s, sep, p + j);
    OccursAsSlice(s[p..i + |sep|], sep, j);
    SliceOfSlice(s, p, i + |sep|, j, |sep|);
  }

  lemma OccursInTail(s: string, sep: string, p: nat, j: nat)
    requires p <= |s|
    ensures OccursAt(s, sep, p + j) <==> OccursAt(s[p..], sep, j)
  {
    OccursAsSlice(s, sep, p + j);
    OccursAsSlice(s[p..], sep, j);
    if p + j + |sep| <= |s| {
      SliceOfSlice(s, p, |s|, j, |sep|);
      assert s[p..|s|] == s[p..];
    }
  }

  lemma Splice(s: string, p: nat, i: nat, q: nat)
    requires p <= i <= q <= |s|
    ensures s[p..q] == s[p..i] + s[i..q]
  {
  }

  lemma {:induction false} PiecesLeftmost(s: string, sep: string, p: nat)
    requires |sep| > 0 && p <= |s|
    ensures Leftmost(Pieces(s, sep, p), sep)
    decreases |s| - p
  {
    var found := FirstFrom(s, sep, p);
    if found.None? {
      AbsentAfter(s, sep, p);
    } else {
      PiecesLeftmost(s, sep, found.value + |sep|);
      CutEndsAtFirst(s, sep, p, found.value);
      CutPieces(s, sep, p, found.value);
      LeftmostCons(s[p..found.value], Pieces(s, sep, found.value + |sep|), sep);
    }
  }

  lemma AbsentAfter(s: string, sep: string, p: nat)
    requires |sep| > 0 && p <= |s| && FirstFrom(s, sep, p) == None
    ensures Absent(s[p..], sep)
  {
    FirstFromFirst(s, sep, p);
    forall j: nat
      ensures !OccursAt(s[p..], sep, j)
    {
      OccursInTail(s, sep, p, j);
    }
  }

  lemma CutEndsAtFirst(s: string, sep: string, p: nat, i: nat)
    requires |sep| > 0 && p <= |s| && FirstFrom(s, sep, p) == Some(i)
    ensures EndsAtFirst(s[p..i], sep)
  {
    FirstFromFirst(s, sep, p);
    OccursAsSlice(s, sep, i);
    Splice(s, p, i, i + |sep|);
    forall j: nat | j < i - p
      ensures !OccursAt(s[p..i] + sep, sep, j)
    {
      OccursInside(s, sep, p, i, j);
    }
  }

  lemma LeftmostCons(first: string, rest: seq<string>, sep: string)
    requires Leftmost(rest, sep) && EndsAtFirst(first, sep)
    ensures Leftmost([first] + rest, sep)
  {
    assert ([first] + rest)[1..] == rest;
  }

  /**
    * The unlimited split is determined by its result: a list of pieces is the split of `s` exactly
    * when joining it gives `s` and every separator in it is a leftmost one.
    */
  lemma SplitIsLeftmostCut(s: string, sep: string, p: nat, pieces: seq<string>)
    requires |sep| > 0 && p <= |s|
    ensures pieces == Pieces(s, sep, p) <==> Leftmost(pieces, sep) && Join(pieces, sep) == s[p..]
  {
    JoinPieces(s, sep, p);
    PiecesLeftmost(s, sep, p);
    if Leftmost(pieces, sep) && Join(pieces, sep) == s[p..] {
      LeftmostCutUnique(s, sep, p, pieces);
    }
  }

  lemma {:induction false} LeftmostCutUnique(s: string, sep: string, p: nat, pieces: seq<string>)
    requires |sep| > 0 && p <= |s| && Leftmost(pieces, sep) && Join(pieces, sep) == s[p..]
    ensures pieces == Pieces(s, sep, p)
    decreases |pieces|
  {
    if |pieces| == 1 {
      OnlyPiece(s, sep, p, pieces[0]);
      assert pieces == [pieces[0]];
    } else {
      FirstOfCut(s, sep, p, pieces);
      LeftmostCutUnique(s, sep, p + |pieces[0]| + |sep|, pieces[1..]);
      PutBack(s, sep, p, p + |pieces[0]|, pieces);
    }
  }

  lemma FirstOfCut(s: string, sep: string, p: nat, pieces: seq<string>)
    requires |sep| > 0 && p <= |s| && |pieces| > 1 && Join(pieces, sep) == s[p..] && EndsAtFirst(pieces[0], sep)
    ensures
      var i := p + |pieces[0]|;
      && i + |sep| <= |s| && FirstFrom(s, sep, p) == Some(i)
      && s[p..i] == pieces[0] && s[i + |sep|..] == Join(pieces[1..], sep)
  {
    FirstPiece(s, sep, p, pieces[0], Join(pieces[1..], sep));
  }

  lemma PutBack(s: string, sep: string, p: nat, i: nat, pieces: seq<string>)
    requires |sep| > 0 && p <= |s| && FirstFrom(s, sep, p) == Some(i) && |pieces| > 0
    requires pieces[0] == s[p..i] && pieces[1..] == Pieces(s, sep, i + |sep|)
    ensures pieces == Pieces(s, sep, p)
  {
    CutPieces(s, sep, p, i);
    assert pieces == [pieces[0]] + pieces[1..];
  }

  lemma OnlyPiece(s: string, sep: string, p: nat, piece: string)
    requires |sep| > 0 && p <= |s| && Absent(piece, sep) && piece == s[p..]
    ensures Pieces(s, sep, p) == [piece]
  {
    LastPiece(s, sep, p);
  }

  lemma LastPiece(s: string, sep: string, p: nat)
    requires |sep| > 0 && p <= |s| && Absent(s[p..], sep)
    ensures FirstFrom(s, sep, p) == None && Pieces(s, sep, p) == [s[p..]]
  {
    FirstFromFirst(s, sep, p);
    var r := FirstFrom(s, sep, p);
    if r.Some? {
      OccursInTail(s, sep, p, r.value - p);
    }
  }

  lemma FirstPiece(s: string, sep: string, p: nat, first: string, rest: string)
    requires |sep| > 0 && p <= |s| && s[p..] == first + sep + rest
    requires EndsAtFirst(first, sep)
    ensures FirstFrom(s, sep, p) == Some(p + |first|)
    ensures s[p..p + |first|] == first && s[p + |first| + |sep|..] == rest
  {
    var i := p + |first|;
    assert |s| - p == |first| + |sep| + |rest|;
    assert s[p..i] == s[p..][..|first|] == first;
    assert s[i..i + |sep|] == s[p..][|first|..|first| + |sep|] == sep;
    assert s[i + |sep|..] == s[p..][|first| + |sep|..] == rest;
    assert s[p..i + |sep|] == first + sep;
    forall j | p <= j < i
      ensures !OccursAt(s, sep, j)
    {
      OccursInside(s, sep, p, i, j - p);
    }
    OccursAsSlice(s, sep, i);
    FirstIs(s, sep, p, i);
  }

  lemma CutPieces(s: string, sep: string, p: nat, i: nat)
    requires |sep| > 0 && p <= |s| && FirstFrom(s, sep, p) == Some(i)
    ensures Pieces(s, sep, p) == [s[p..i]] + Pieces(s, sep, i + |sep|)
  {
  }

  /** One cut of the loops that search: the piece before the occurrence, then the rest. */
  lemma CutStep(s: string, sep: string, p: nat, i: nat, done: seq<string>, all: seq<string>)
    requires |sep| > 0 && p <= |s| && FirstFrom(s, sep, p) == Some(i) && all == done + Pieces(s, sep, p)
    ensures all == (done + [s[p..i]]) + Pieces(s, sep, i + |sep|)
  {
  }

  lemma CutCount(s: string, sep: string, p: nat, i: nat)
    requires |sep| > 0 && p <= |s| && FirstFrom(s, sep, p) == Some(i)
    ensures |Pieces(s, sep, p)| == |Pieces(s, sep, i + |sep|)| + 1
    ensures s[i..i + |sep|] == sep
  {
    FirstFromFirst(s, sep, p);
    OccursAsSlice(s, sep, i);
  }

  // ---------------------------------------------------------------------------------------------
  // Words and characters
  // ---------------------------------------------------------------------------------------------

  predicate Blank(c: char) {
    c == ' ' || c == '\t' || c == '\n' || c == '\r'
  }

  /** The end of the run of characters from `p` on that are blank, or that are not. */
  function RunEnd(s: string, p: nat, blank: bool): (q: nat)
    requires p <= |s|
    ensures p <= q <= |s| && (q < |s| ==> Blank(s[q]) != blank)
    ensures forall i :: p <= i < q ==> Blank(s[i]) == blank
    decreases |s| - p
  {
    if p == |s| || Blank(s[p]) != blank then p else RunEnd(s, p + 1, blank)
  }

  lemma RunEndIs(s: string, p: nat, blank: bool, q: nat)
    requires p <= q <= |s| && (q < |s| ==> Blank(s[q]) != blank) && forall i :: p <= i < q ==> Blank(s[i]) == blank
    ensures RunEnd(s, p, blank) == q
  {
  }

  /** The words from `p` on; the last one that a positive limit allows is all the rest. */
  function Words(s: string, p: nat, limit: int): seq<string>
    requires p <= |s|
    decreases |s| - p
  {
    var b := RunEnd(s, p, true);
    if b == |s| then []
    else if limit == 1 then [s[b..]]
    else [s[b..RunEnd(s, b, false)]] + Words(s, RunEnd(s, b, false), limit - 1)
  }

  predicate IsWord(w: string) {
    |w| > 0 && forall i :: 0 <= i < |w| ==> !Blank(w[i])
  }

  /** Blanks before a word do not matter. */
  lemma FromBlank(s: string, p: nat, q: nat, limit: int)
    requires p <= q <= |s| && RunEnd(s, p, true) == RunEnd(s, q, true)
    ensures Words(s, p, limit) == Words(s, q, limit)
  {
  }

  lemma {:induction false} WordsOnly(s: string, p: nat, limit: int)
    requires p <= |s|
    ensures limit <= 0 ==> forall w :: w in Words(s, p, limit) ==> IsWord(w)
    ensures limit > 0 ==> |Words(s, p, limit)| <= limit
    decreases |s| - p
  {
    var b := RunEnd(s, p, true);
    if b < |s| && limit != 1 {
      var e := RunEnd(s, b, false);
      WordsOnly(s, e, limit - 1);
      assert IsWord(s[b..e]);
    }
  }

  lemma OneWord(s: string, p: nat, e: nat, limit: int)
    requires p < e <= |s| && limit != 1 && (forall i :: p <= i < e ==> !Blank(s[i])) && (e < |s| ==> Blank(s[e]))
    ensures Words(s, p, limit) == [s[p..e]] + Words(s, e, limit - 1)
  {
    RunEndIs(s, p, true, p);
    RunEndIs(s, p, false, e);
  }

  lemma NoWord(s: string, limit: int)
    ensures Words(s, |s|, limit) == []
  {
  }

  /** From `p` on, `s` is the words `ws` with a space between neighbours. */
  ghost predicate Spaced(s: string, p: nat, ws: seq<string>)
    decreases |ws|
  {
    if |ws| == 0 then p == |s|
    else
      var e := p + |ws[0]|;
      p < e <= |s| && s[p..e] == ws[0] && IsWord(ws[0]) &&
      if |ws| == 1 then e == |s| else e < |s| && s[e] == ' ' && Spaced(s, e + 1, ws[1..])
  }

  lemma {:induction false} JoinIsSpaced(s: string, p: nat, ws: seq<string>)
    requires p <= |s| && s[p..] == Join(ws, " ") && forall k :: 0 <= k < |ws| ==> IsWord(ws[k])
    ensures Spaced(s, p, ws)
    decreases |ws|
  {
    if |ws| == 0 {
    } else {
      WordInJoin(s, p, ws);
      if |ws| > 1 {
        JoinIsSpaced(s, p + |ws[0]| + 1, ws[1..]);
      }
    }
  }

  lemma {:induction false} WordsOfSpaced(s: string, p: nat, ws: seq<string>, limit: int)
    requires p <= |s| && Spaced(s, p, ws) && limit <= 0
    ensures Words(s, p, limit) == ws
    decreases |ws|
  {
    if |ws| == 0 {
      NoWord(s, limit);
    } else {
      var e := p + |ws[0]|;
      assert forall i :: p <= i < e ==> s[i] == ws[0][i - p];
      if |ws| > 1 {
        WordsOfSpaced(s, e + 1, ws[1..], limit - 1);
      }
      FirstOfSpaced(s, p, e, ws, limit);
    }
  }

  lemma FirstOfSpaced(s: string, p: nat, e: nat, ws: seq<string>, limit: int)
    requires |ws| > 0 && limit <= 0 && p < e <= |s| && s[p..e] == ws[0] && forall i :: p <= i < e ==> !Blank(s[i])
    requires |ws| == 1 ==> e == |s|
    requires |ws| > 1 ==> e < |s| && s[e] == ' ' && Words(s, e + 1, limit - 1) == ws[1..]
    ensures Words(s, p, limit) == ws
  {
    assert ws == [ws[0]] + ws[1..];
    if |ws| == 1 {
      OneWord(s, p, e, limit);
      NoWord(s, limit - 1);
    } else {
      WordThenSpace(s, p, e, limit, ws[1..]);
    }
  }

  lemma WordThenSpace(s: string, p: nat, e: nat, limit: int, rest: seq<string>)
    requires p < e < |s| && limit != 1 && (forall i :: p <= i < e ==> !Blank(s[i])) && s[e] == ' '
    requires Words(s, e + 1, limit - 1) == rest
    ensures Words(s, p, limit) == [s[p..e]] + rest
  {
    OneWord(s, p, e, limit);
    FromBlank(s, e, e + 1, limit - 1);
  }

  /** The first word of a join, and what follows it. */
  lemma WordInJoin(s: string, p: nat, ws: seq<string>)
    requires p <= |s| && |ws| > 0 && s[p..] == Join(ws, " ")
    ensures
      var e := p + |ws[0]|;
      && e <= |s| && s[p..e] == ws[0] && (|ws| == 1 ==> e == |s|)
      && (|ws| > 1 ==> e < |s| && s[e] == ' ' && s[e + 1..] == Join(ws[1..], " "))
  {
    if |ws| > 1 {
      Parts(s, p, ws[0], Join(ws[1..], " "));
    }
  }

  lemma Parts(s: string, p: nat, w: string, rest: string)
    requires p <= |s| && s[p..] == w + " " + rest
    ensures
      var e := p + |w|;
      e < |s| && s[p..e] == w && s[e] == ' ' && s[e + 1..] == rest
  {
    var t := s[p..];
    assert t[..|w|] == w && t[|w|] == ' ' && t[|w| + 1..] == rest;
  }

  /** Splitting on white space undoes joining with a space exactly for lists of words. */
  lemma WordsUndoJoinIff(ws: seq<string>)
    ensures Words(Join(ws, " "), 0, 0) == ws <==> forall k :: 0 <= k < |ws| ==> IsWord(ws[k])
  {
    var s := Join(ws, " ");
    WordsOnly(s, 0, 0);
    if forall k :: 0 <= k < |ws| ==> IsWord(ws[k]) {
      assert s[0..] == s;
      JoinIsSpaced(s, 0, ws);
      WordsOfSpaced(s, 0, ws, 0);
    }
  }

  /** Only space, tab, newline and carriage return separate words. */
  lemma Separates(u: string, c: char, v: string)
    requires IsWord(u) && IsWord(v)
    ensures c == ' ' || c == '\t' || c == '\n' || c == '\r' ==> Words(u + [c] + v, 0, 0) == [u, v]
    ensures c != ' ' && c != '\t' && c != '\n' && c != '\r' ==> Words(u + [c] + v, 0, 0) == [u + [c] + v]
  {
    var t, n := u + [c] + v, |u|;
    assert t[0..n] == u && t[n] == c && t[n + 1..|t|] == v && t[0..|t|] == t;
    assert forall i :: n < i < |t| ==> t[i] == v[i - n - 1];
    if Blank(c) {
      OneWord(t, 0, n, 0);
      RunEndIs(t, n, true, n + 1);
      RunEndIs(t, n + 1, true, n + 1);
      FromBlank(t, n, n + 1, -1);
      OneWord(t, n + 1, |t|, -1);
      NoWord(t, -2);
    } else {
      OneWord(t, 0, |t|, 0);
      NoWord(t, -1);
    }
  }

  /** A word of `s` starts at `i`. */
  predicate StartsWord(s: string, i: nat) {
    i < |s| && !Blank(s[i]) && (i == 0 || Blank(s[i - 1]))
  }

  /** `w` stands at `i` and is not followed by more of the same word. */
  predicate WordAt(s: string, i: nat, w: string) {
    i + |w| <= |s| && s[i..i + |w|] == w && IsWord(w) && (i + |w| < |s| ==> Blank(s[i + |w|]))
  }

  /** `b` lists, in order, where the words of `s` start from `p` on. */
  ghost predicate WordStarts(b: seq<nat>, s: string, p: nat) {
    && (forall k :: 0 <= k < |b| ==> p <= b[k] && StartsWord(s, b[k]))
    && (forall j, k :: 0 <= j < k < |b| ==> b[j] < b[k])
    && (forall i: nat :: p <= i && StartsWord(s, i) ==> i in b)
  }

  /** `w` is the `k`-th of the words at the starts; the last one a positive limit allows is all the rest of `s`. */
  predicate WordOf(w: string, k: nat, i: nat, s: string, limit: int) {
    if k == limit - 1 then i <= |s| && w == s[i..] else WordAt(s, i, w)
  }

  ghost predicate WordsAt(ws: seq<string>, b: seq<nat>, s: string, limit: int) {
    && |ws| == (if 0 < limit < |b| then limit else |b|)
    && forall k :: 0 <= k < |ws| ==> WordOf(ws[k], k, b[k], s, limit)
  }

  lemma {:induction false} WordsExact(s: string, p: nat, limit: int) returns (b: seq<nat>)
    requires p == 0 || p == |s| || (p < |s| && Blank(s[p]))
    ensures WordStarts(b, s, p) && WordsAt(Words(s, p, limit), b, s, limit)
    decreases |s| - p
  {
    var i := RunEnd(s, p, true);
    if i == |s| {
      b := [];
    } else {
      var e := RunEnd(s, i, false);
      var rest := WordsExact(s, e, limit - 1);
      b := [i] + rest;
      StartsFrom(s, p, i, e, rest);
      WordsFrom(s, p, i, e, limit, rest);
    }
  }

  lemma StartsFrom(s: string, p: nat, i: nat, e: nat, rest: seq<nat>)
    requires p <= i < e <= |s| && WordStarts(rest, s, e) && (i == 0 || i > p || p == 0 || Blank(s[p]))
    requires (forall j :: p <= j < i ==> Blank(s[j])) && (forall j :: i <= j < e ==> !Blank(s[j]))
    requires i == 0 || Blank(s[i - 1])
    ensures WordStarts([i] + rest, s, p)
  {
    forall j: nat | p <= j < e
      ensures StartsWord(s, j) <==> j == i
    {
    }
  }

  lemma WordsFrom(s: string, p: nat, i: nat, e: nat, limit: int, rest: seq<nat>)
    requires p <= i < e <= |s| && i == RunEnd(s, p, true) && e == RunEnd(s, i, false)
    requires WordsAt(Words(s, e, limit - 1), rest, s, limit - 1)
    ensures WordsAt(Words(s, p, limit), [i] + rest, s, limit)
  {
    if limit == 1 {
      assert Words(s, p, limit) == [s[i..]];
    } else {
      assert WordAt(s, i, s[i..e]);
      WordsCons(s[i..e], Words(s, e, limit - 1), i, rest, s, limit);
    }
  }

  lemma WordsCons(w: string, ws: seq<string>, i: nat, rest: seq<nat>, s: string, limit: int)
    requires limit != 1 && WordAt(s, i, w) && WordsAt(ws, rest, s, limit - 1)
    ensures WordsAt([w] + ws, [i] + rest, s, limit)
  {
    var all, b := [w] + ws, [i] + rest;
    forall k | 0 <= k < |all|
      ensures WordOf(all[k], k, b[k], s, limit)
    {
      if k > 0 {
        assert WordOf(ws[k - 1], k - 1, rest[k - 1], s, limit - 1);
      }
    }
  }

  method Skip(s: string, p: nat, blank: bool) returns (q: nat)
    requires p <= |s|
    ensures q == RunEnd(s, p, blank)
  {
    q := p;
    while q < |s| && Blank(s[q]) == blank
      invariant p <= q <= |s| && RunEnd(s, q, blank) == RunEnd(s, p, blank)
    {
      q := q + 1;
    }
  }

  lemma NextWord(s: string, p: nat, e: nat, q: nat, limit: int, done: seq<string>)
    requires p < |s| && !Blank(s[p]) && limit != 1 && e == RunEnd(s, p, false) && q == RunEnd(s, e, true)
    ensures done + Words(s, p, limit) == (done + [s[p..e]]) + Words(s, q, limit - 1)
  {
    OneWord(s, p, e, limit);
    RunEndIs(s, q, true, q);
    FromBlank(s, e, q, limit - 1);
  }

  method SplitWords(s: string, limit: int) returns (arr: seq<string>)
    ensures arr == Words(s, 0, limit)
  {
    arr := [];
    ghost var all, left := Words(s, 0, limit), limit;
    var p := Skip(s, 0, true);
    var count := 0;
    FromBlank(s, 0, p, limit);
    while p < |s|
      invariant p <= |s| && (p < |s| ==> !Blank(s[p])) && left == limit - count && (limit > 0 ==> left >= 1)
      invariant all == arr + Words(s, p, left)
      decreases |s| - p
    {
      if limit > 0 && count >= limit - 1 {
        RunEndIs(s, p, true, p);
        arr := arr + [s[p..]];
        return;
      }
      ghost var done := arr;
      var start := p;
      var end := Skip(s, p, false);
      arr := arr + [s[start..end]];
      p := Skip(s, end, true);
      NextWord(s, start, end, p, left, done);
      count, left := count + 1, left - 1;
    }
    NoWord(s, left);
  }

  function Characters(s: string): seq<string> {
    seq(|s|, i requires 0 <= i < |s| => [s[i]])
  }

  /** Splitting at nothing is undone by joining with nothing. */
  lemma {:induction false} JoinCharacters(s: string)
    ensures Join(Characters(s), "") == s
  {
    if |s| <= 1 {
    } else {
      JoinCharacters(s[1..]);
      assert Characters(s)[1..] == Characters(s[1..]);
      assert s == [s[0]] + "" + s[1..];
    }
  }

  // ---------------------------------------------------------------------------------------------
  // split
  // ---------------------------------------------------------------------------------------------

  /** With a positive limit the pieces from the last allowed one on stay together. */
  ghost function Limited(pieces: seq<string>, sep: string, limit: int): seq<string> {
    if limit > 0 && |pieces| > limit then pieces[..limit - 1] + [Join(pieces[limit - 1..], sep)] else pieces
  }

  ghost function WithoutTrailingEmpty(pieces: seq<string>): seq<string> {
    if |pieces| > 0 && pieces[|pieces| - 1] == "" then WithoutTrailingEmpty(pieces[..|pieces| - 1]) else pieces
  }

  /** Every empty piece at the end is gone, and nothing else. */
  ghost predicate Trimmed(r: seq<string>, pieces: seq<string>) {
    && r <= pieces && (forall i :: |r| <= i < |pieces| ==> pieces[i] == "")
    && (|r| > 0 ==> r[|r| - 1] != "")
  }

  lemma {:induction false} TrimExact(pieces: seq<string>)
    ensures Trimmed(WithoutTrailingEmpty(pieces), pieces)
  {
    if |pieces| > 0 && pieces[|pieces| - 1] == "" {
      TrimExact(pieces[..|pieces| - 1]);
    }
  }

  /** The pieces before the last allowed one are there as they were, and joined they make the same text. */
  ghost predicate Capped(r: seq<string>, pieces: seq<string>, sep: string, limit: int) {
    && |r| == (if limit < |pieces| then limit else |pieces|)
    && (forall i :: 0 <= i < |r| - 1 ==> r[i] == pieces[i])
    && Join(r, sep) == Join(pieces, sep)
  }

  ghost function SplitResult(s: string, sep: string, limit: int): seq<string>
    requires |sep| > 0
  {
    if limit == 0 then WithoutTrailingEmpty(Pieces(s, sep, 0)) else Limited(Pieces(s, sep, 0), sep, limit)
  }

  /** The search loop of `split`, for a separator that is not empty. */
  method CutAt(s: string, sep: string, limit: int) returns (arr: seq<string>)
    requires |sep| > 0
    ensures arr == Limited(Pieces(s, sep, 0), sep, limit)
  {
    arr := [];
    var p, count, found := 0, 0, FirstFrom(s, sep, 0);
    ghost var all := Pieces(s, sep, 0);
    while found.Some?
      invariant 0 <= p <= |s| && count == |arr| && found == FirstFrom(s, sep, p)
      invariant all == arr + Pieces(s, sep, p)
      invariant limit > 0 ==> count <= limit - 1
      decreases |s| - p
    {
      if limit > 0 && count >= limit - 1 {
        break;
      }
      CutStep(s, sep, p, found.value, arr, all);
      arr := arr + [s[p..found.value]];
      p := found.value + |sep|;
      count := count + 1;
      found := FirstFrom(s, sep, p);
    }
    LastStep(s, sep, p, arr, all, limit);
    arr := arr + [s[p..]];
  }

  method DropTrailingEmpty(all: seq<string>) returns (arr: seq<string>)
    ensures arr == WithoutTrailingEmpty(all)
  {
    arr := all;
    while |arr| > 0 && arr[|arr| - 1] == ""
      invariant WithoutTrailingEmpty(arr) == WithoutTrailingEmpty(all)
    {
      arr := arr[..|arr| - 1];
    }
  }

  /** `split(sep, limit)`: on white space for a single space, into characters for nothing, else at `sep`. */
  method Split(s: string, sep: string, limit: int) returns (arr: seq<string>)
    ensures sep == " " ==> arr == Words(s, 0, limit)
    ensures sep == "" ==> arr == Characters(s)
    ensures sep != " " && sep != "" ==> arr == SplitResult(s, sep, limit)
    ensures sep != " " && sep != "" && limit == 0 ==> Trimmed(arr, Pieces(s, sep, 0))
    ensures sep != " " && sep != "" && limit > 0 ==> Capped(arr, Pieces(s, sep, 0), sep, limit)
  {
    if sep == " " {
      arr := SplitWords(s, limit);
      return;
    }
    if |sep| == 0 {
      arr := [];
      for i := 0 to |s|
        invariant arr == Characters(s[..i])
      {
        assert s[..i + 1] == s[..i] + [s[i]];
        arr := arr + [[s[i]]];
      }
      assert s[..|s|] == s;
    } else {
      arr := CutAt(s, sep, limit);
      JoinLimited(Pieces(s, sep, 0), sep, limit);
      TrimExact(Pieces(s, sep, 0));
    }
    if limit == 0 {
      arr := DropTrailingEmpty(arr);
    }
  }

  /** The loop ends at the last separator or at the limit; what is left becomes the last piece. */
  lemma LastStep(s: string, sep: string, p: nat, done: seq<string>, all: seq<string>, limit: int)
    requires |sep| > 0 && p <= |s| && all == done + Pieces(s, sep, p) && (limit > 0 ==> |done| <= limit - 1)
    requires FirstFrom(s, sep, p) == None || (limit > 0 && |done| >= limit - 1)
    ensures done + [s[p..]] == Limited(all, sep, limit)
  {
    JoinPieces(s, sep, p);
    assert all[|done|..] == Pieces(s, sep, p) && all[..|done|] == done;
  }

  lemma {:induction false} JoinConcat(left: seq<string>, right: seq<string>, sep: string)
    requires |left| > 0 && |right| > 0
    ensures Join(left + right, sep) == Join(left, sep) + sep + Join(right, sep)
  {
    if |left| == 1 {
      assert (left + right)[1..] == right;
    } else {
      JoinConcat(left[1..], right, sep);
      assert (left + right)[1..] == left[1..] + right;
    }
  }

  lemma JoinLimited(pieces: seq<string>, sep: string, limit: int)
    ensures Join(Limited(pieces, sep, limit), sep) == Join(pieces, sep)
    ensures limit > 0 && |pieces| > 0 ==> |Limited(pieces, sep, limit)| <= limit
  {
    if limit > 1 && |pieces| > limit {
      var left, right := pieces[..limit - 1], pieces[limit - 1..];
      JoinConcat(left, right, sep);
      JoinConcat(left, [Join(right, sep)], sep);
      assert pieces == left + right;
    }
  }

  /** A split with any limit other than zero loses nothing: joining the pieces gives the string back. */
  lemma JoinSplit(s: string, sep: string, limit: int)
    requires |sep| > 0 && limit != 0
    ensures Join(SplitResult(s, sep, limit), sep) == s
    ensures limit > 0 ==> 1 <= |SplitResult(s, sep, limit)| <= limit
    ensures limit < 0 ==> SplitResult(s, sep, limit) == Pieces(s, sep, 0)
  {
    JoinPieces(s, sep, 0);
    JoinLimited(Pieces(s, sep, 0), sep, limit);
  }

  lemma {:induction false} TrimShortens(pieces: seq<string>, sep: string)
    requires |sep| > 0
    ensures |Join(WithoutTrailingEmpty(pieces), sep)| <= |Join(pieces, sep)|
    ensures |pieces| > 1 && pieces[|pieces| - 1] == "" ==>
              |Join(WithoutTrailingEmpty(pieces), sep)| < |Join(pieces, sep)|
  {
    if |pieces| > 0 && pieces[|pieces| - 1] == "" {
      var shorter := pieces[..|pieces| - 1];
      TrimShortens(shorter, sep);
      if |pieces| > 1 {
        JoinConcat(shorter, [""], sep);
        assert pieces == shorter + [""];
      }
    }
  }

  /** The default split drops trailing empty pieces, so it can be undone only when there are none. */
  lemma JoinDefaultSplitIff(s: string, sep: string)
    requires |sep| > 0
    ensures
      var pieces := Pieces(s, sep, 0);
      Join(SplitResult(s, sep, 0), sep) == s <==> s == "" || pieces[|pieces| - 1] != ""
  {
    var pieces := Pieces(s, sep, 0);
    JoinPieces(s, sep, 0);
    TrimShortens(pieces, sep);
    if pieces[|pieces| - 1] == "" && |pieces| == 1 {
      assert s == "";
    }
  }

  // ---------------------------------------------------------------------------------------------
  // scan
  // ---------------------------------------------------------------------------------------------

  ghost predicate Copies(arr: seq<string>, needle: string) {
    forall i :: 0 <= i < |arr| ==> arr[i] == needle
  }

  lemma OneMoreCopy(arr: seq<string>, needle: string, hit: string)
    requires Copies(arr, needle) && hit == needle
    ensures Copies(arr + [hit], needle)
  {
  }

  /** Literal `scan`: one copy of the needle for each cut that `split` makes. */
  method Scan(s: string, needle: string) returns (arr: seq<string>)
    ensures needle == "" ==> arr == []
    ensures needle != "" ==> |arr| + 1 == |Pieces(s, needle, 0)|
    ensures Copies(arr, needle)
  {
    arr := [];
    if |needle| == 0 {
      return;
    }
    var p, found := 0, FirstFrom(s, needle, 0);
    while found.Some?
      invariant 0 <= p <= |s| && found == FirstFrom(s, needle, p)
      invariant |arr| + |Pieces(s, needle, p)| == |Pieces(s, needle, 0)|
      invariant Copies(arr, needle)
      decreases |s| - p
    {
      CutCount(s, needle, p, found.value);
      OneMoreCopy(arr, needle, s[found.value..found.value + |needle|]);
      arr := arr + [s[found.value..found.value + |needle|]];
      p := found.value + |needle|;
      found := FirstFrom(s, needle, p);
    }
  }

  // ---------------------------------------------------------------------------------------------
  // gsub and sub
  // ---------------------------------------------------------------------------------------------

  /** The text with every occurrence replaced, reading one character at a time from `p`. */
  ghost function Replaced(s: string, needle: string, repl: string, p: nat): string
    requires |needle| > 0 && p <= |s|
    decreases |s| - p
  {
    if p == |s| then ""
    else if OccursAt(s, needle, p) then repl + Replaced(s, needle, repl, p + |needle|)
    else [s[p]] + Replaced(s, needle, repl, p + 1)
  }

  lemma {:induction false} SkipToOccurrence(s: string, needle: string, repl: string, p: nat, i: nat)
    requires |needle| > 0 && p <= i <= |s| && forall j: nat :: p <= j < i ==> !OccursAt(s, needle, j)
    ensures Replaced(s, needle, repl, p) == s[p..i] + Replaced(s, needle, repl, i)
    decreases i - p
  {
    if p < i {
      SkipToOccurrence(s, needle, repl, p + 1, i);
      SliceStep(s, p, i, Replaced(s, needle, repl, i));
    } else {
      assert s[p..i] == "";
    }
  }

  lemma SliceStep(s: string, p: nat, i: nat, rest: string)
    requires p < i <= |s|
    ensures [s[p]] + (s[p + 1..i] + rest) == s[p..i] + rest
  {
    assert s[p..i] == [s[p]] + s[p + 1..i];
  }

  lemma JoinCons(first: string, rest: seq<string>, sep: string)
    requires |rest| > 0
    ensures Join([first] + rest, sep) == first + (sep + Join(rest, sep))
  {
    assert ([first] + rest)[1..] == rest;
  }

  /** The character loop of `gsub` and the search loop of `split` agree. */
  lemma {:induction false} GsubIsJoin(s: string, needle: string, repl: string, p: nat)
    requires |needle| > 0 && p <= |s|
    ensures Replaced(s, needle, repl, p) == Join(Pieces(s, needle, p), repl)
    decreases |s| - p
  {
    FirstFromFirst(s, needle, p);
    var found := FirstFrom(s, needle, p);
    if found.None? {
      SkipToOccurrence(s, needle, repl, p, |s|);
    } else {
      var i := found.value;
      SkipToOccurrence(s, needle, repl, p, i);
      AtOccurrence(s, needle, repl, i);
      GsubIsJoin(s, needle, repl, i + |needle|);
      JoinCons(s[p..i], Pieces(s, needle, i + |needle|), repl);
    }
  }

  lemma AtOccurrence(s: string, needle: string, repl: string, i: nat)
    requires |needle| > 0 && OccursAt(s, needle, i)
    ensures Replaced(s, needle, repl, i) == repl + Replaced(s, needle, repl, i + |needle|)
  {
  }

  /** `sub`: only the first occurrence. */
  ghost function ReplacedOnce(s: string, needle: string, repl: string): string
    requires |needle| > 0
  {
    var found := FirstFrom(s, needle, 0);
    if found.None? then s else s[..found.value] + (repl + s[found.value + |needle|..])
  }

  /** The replacement takes the place of the first occurrence; without one the text stays. */
  ghost predicate FirstGivesWay(result: string, s: string, needle: string, repl: string) {
    && ((forall i: nat :: !OccursAt(s, needle, i)) ==> result == s)
    && forall i: nat :: OccursAt(s, needle, i) && (forall j: nat :: j < i ==> !OccursAt(s, needle, j)) ==>
      result == s[..i] + repl + s[i + |needle|..]
  }

  lemma OnceExact(s: string, needle: string, repl: string)
    requires |needle| > 0
    ensures FirstGivesWay(ReplacedOnce(s, needle, repl), s, needle, repl)
  {
    FirstFromFirst(s, needle, 0);
    forall i: nat | OccursAt(s, needle, i) && forall j: nat :: j < i ==> !OccursAt(s, needle, j)
      ensures ReplacedOnce(s, needle, repl) == s[..i] + repl + s[i + |needle|..]
    {
      FirstIs(s, needle, 0, i);
      Associate(s[..i], repl, s[i + |needle|..]);
    }
  }

  /** Doubling until the requested room is there; what was written stays. */
  method Grow(buf: array<char>, used: nat, room: nat) returns (bigger: array<char>)
    requires buf.Length > 0 && used <= buf.Length
    ensures bigger.Length >= room && bigger.Length > 0 && used <= bigger.Length
    ensures bigger[..used] == buf[..used]
    ensures bigger == buf || fresh(bigger)
  {
    bigger := buf;
    var cap := buf.Length;
    while room > cap
      invariant cap >= buf.Length
      decreases room - cap
    {
      cap := cap * 2;
    }
    if cap != buf.Length {
      bigger := new char[cap](i requires 0 <= i reads buf => if i < buf.Length then buf[i] else '\0');
    }
  }

  method Write(buf: array<char>, used: nat, text: string)
    requires used + |text| <= buf.Length
    modifies buf
    ensures buf[..used + |text|] == old(buf[..used]) + text
  {
    forall i | 0 <= i < |text| {
      buf[used + i] := text[i];
    }
    assert buf[..used + |text|][..used] == old(buf[..used]);
    assert buf[..used + |text|][used..] == text;
  }

  /** Growing if need be, then writing: always a character short of the capacity, for the final NUL. */
  method Append(buf: array<char>, used: nat, text: string, room: nat) returns (grown: array<char>)
    requires 0 < buf.Length && used <= buf.Length && used + |text| < room
    modifies buf
    ensures grown == buf || fresh(grown)
    ensures used + |text| < grown.Length && grown[..used + |text|] == old(buf[..used]) + text
  {
    grown := Grow(buf, used, room);
    Write(grown, used, text);
  }

  /** What is still to come when `done` says whether a replacement was made. */
  ghost function Remaining(s: string, needle: string, repl: string, global: bool, done: bool, p: nat): string
    requires |needle| > 0 && p <= |s|
    decreases |s| - p
  {
    if p == |s| then ""
    else if (!global && done) || !OccursAt(s, needle, p) then
      [s[p]] + Remaining(s, needle, repl, global, done, p + 1)
    else repl + Remaining(s, needle, repl, global, true, p + |needle|)
  }

  lemma CopyStep(s: string, needle: string, repl: string, global: bool, done: bool, p: nat, written: string)
    requires |needle| > 0 && p < |s| && ((!global && done) || !OccursAt(s, needle, p))
    ensures written + Remaining(s, needle, repl, global, done, p) ==
              (written + [s[p]]) + Remaining(s, needle, repl, global, done, p + 1)
  {
  }

  lemma ReplaceStep(s: string, needle: string, repl: string, global: bool, done: bool, p: nat, written: string)
    requires |needle| > 0 && p < |s| && OccursAt(s, needle, p) && !(!global && done)
    ensures written + Remaining(s, needle, repl, global, done, p) ==
              (written + repl) + Remaining(s, needle, repl, global, true, p + |needle|)
  {
  }

  lemma {:induction false} RemainingGlobal(s: string, needle: string, repl: string, done: bool, p: nat)
    requires |needle| > 0 && p <= |s|
    ensures Remaining(s, needle, repl, true, done, p) == Replaced(s, needle, repl, p)
    decreases |s| - p
  {
    if p == |s| {
    } else {
      if OccursAt(s, needle, p) {
        RemainingGlobal(s, needle, repl, true, p + |needle|);
      } else {
        RemainingGlobal(s, needle, repl, done, p + 1);
      }
    }
  }

  lemma {:induction false} RemainingDone(s: string, needle: string, repl: string, p: nat)
    requires |needle| > 0 && p <= |s|
    ensures Remaining(s, needle, repl, false, true, p) == s[p..]
    decreases |s| - p
  {
    if p == |s| {
    } else {
      RemainingDone(s, needle, repl, p + 1);
      assert s[p..] == [s[p]] + s[p + 1..];
    }
  }

  lemma {:induction false} RemainingOnce(s: string, needle: string, repl: string, p: nat)
    requires |needle| > 0 && p <= |s|
    ensures Remaining(s, needle, repl, false, false, p) == Once(s, repl, |needle|, p, FirstFrom(s, needle, p))
    decreases |s| - p
  {
    if p == |s| {
    } else {
      if OccursAt(s, needle, p) {
        RemainingHere(s, needle, repl, p);
      } else {
        RemainingOnce(s, needle, repl, p + 1);
        PrependChar(s, p, FirstFrom(s, needle, p + 1), repl, |needle|);
      }
    }
  }

  /** The text from `p` on with `n` characters at `found` replaced. */
  ghost function Once(s: string, repl: string, n: nat, p: nat, found: Option<nat>): string
    requires p <= |s| && (found.Some? ==> p <= found.value && found.value + n <= |s|)
  {
    if found.None? then s[p..] else s[p..found.value] + (repl + s[found.value + n..])
  }

  lemma RemainingHere(s: string, needle: string, repl: string, p: nat)
    requires |needle| > 0 && p < |s| && OccursAt(s, needle, p)
    ensures FirstFrom(s, needle, p) == Some(p)
    ensures Remaining(s, needle, repl, false, false, p) == Once(s, repl, |needle|, p, Some(p))
  {
    RemainingDone(s, needle, repl, p + |needle|);
    NothingBefore(s, p, repl + s[p + |needle|..]);
  }

  lemma NothingBefore(s: string, p: nat, rest: string)
    requires p <= |s|
    ensures s[p..p] + rest == rest
  {
  }

  lemma PrependChar(s: string, p: nat, found: Option<nat>, repl: string, n: nat)
    requires p < |s| && (found.Some? ==> p < found.value && found.value + n <= |s|)
    ensures [s[p]] + Once(s, repl, n, p + 1, found) == Once(s, repl, n, p, found)
  {
    if found.Some? {
      SliceStep(s, p, found.value, repl + s[found.value + n..]);
    }
  }

  /** One character that stays; what is written and what is to come still make up the goal. */
  method CopyOne(s: string, needle: string, ghost repl: string, global: bool, replaced: bool, p: nat,
                 buf: array<char>, used: nat, ghost goal: string)
    returns (grown: array<char>)
    requires |needle| > 0 && p < |s| && used < buf.Length && ((!global && replaced) || !OccursAt(s, needle, p))
    requires buf[..used] + Remaining(s, needle, repl, global, replaced, p) == goal
    modifies buf
    ensures (grown == buf || fresh(grown)) && used + 1 < grown.Length
    ensures grown[..used + 1] + Remaining(s, needle, repl, global, replaced, p + 1) == goal
  {
    CopyStep(s, needle, repl, global, replaced, p, buf[..used]);
    grown := Append(buf, used, [s[p]], used + 2);
  }

  /** One occurrence that is replaced. */
  method CopyReplacement(s: string, needle: string, repl: string, global: bool, replaced: bool, p: nat,
                         buf: array<char>, used: nat, ghost goal: string)
    returns (grown: array<char>)
    requires |needle| > 0 && p < |s| && used < buf.Length && OccursAt(s, needle, p) && (global || !replaced)
    requires buf[..used] + Remaining(s, needle, repl, global, replaced, p) == goal
    modifies buf
    ensures (grown == buf || fresh(grown)) && used + |repl| < grown.Length
    ensures grown[..used + |repl|] + Remaining(s, needle, repl, global, true, p + |needle|) == goal
  {
    ReplaceStep(s, needle, repl, global, replaced, p, buf[..used]);
    grown := Append(buf, used, repl, used + |repl| + 2);
  }

  /** Literal `gsub` (`global`) and `sub` with a string replacement, in a buffer that doubles. */
  method Substitute(s: string, needle: string, repl: string, global: bool) returns (result: string)
    ensures needle == "" ==> result == s
    ensures needle != "" && global ==> result == Join(Pieces(s, needle, 0), repl)
    ensures needle != "" && !global ==> result == ReplacedOnce(s, needle, repl)
  {
    if |needle| == 0 {
      return s;
    }
    ghost var goal := Remaining(s, needle, repl, global, false, 0);
    var cap, used, p, replaced := |s| * 2 + 64, 0, 0, false;
    var buf := new char[cap];
    assert buf[..0] + goal == goal;
    while p < |s|
      invariant 0 <= p <= |s| && 0 <= used < buf.Length && fresh(buf)
      invariant buf[..used] + Remaining(s, needle, repl, global, replaced, p) == goal
      decreases |s| - p
    {
      if (!global && replaced) || !OccursAt(s, needle, p) {
        buf := CopyOne(s, needle, repl, global, replaced, p, buf, used, goal);
        used := used + 1;
        p := p + 1;
      } else {
        buf := CopyReplacement(s, needle, repl, global, replaced, p, buf, used, goal);
        used := used + |repl|;
        p := p + |needle|;
        replaced := true;
      }
    }
    assert buf[..used] + "" == buf[..used];
    buf[used] := '\0';
    result := buf[..used];
    RemainingMeans(s, needle, repl, global);
  }

  lemma RemainingMeans(s: string, needle: string, repl: string, global: bool)
    requires |needle| > 0
    ensures Remaining(s, needle, repl, global, false, 0) ==
              if global then Join(Pieces(s, needle, 0), repl) else ReplacedOnce(s, needle, repl)
  {
    if global {
      RemainingGlobal(s, needle, repl, false, 0);
      GsubIsJoin(s, needle, repl, 0);
    } else {
      RemainingOnce(s, needle, repl, 0);
    }
  }

  /** Ruby finds an empty needle before every character and at the end. */
  function BetweenAll(s: string, repl: string): string {
    if |s| == 0 then repl else repl + [s[0]] + BetweenAll(s[1..], repl)
  }

  lemma {:induction false} BetweenAllIsJoin(s: string, repl: string)
    ensures BetweenAll(s, repl) == repl + Join(Characters(s) + [""], repl)
  {
    if |s| == 0 {
      assert Characters(s) + [""] == [""];
    } else {
      var rest := Characters(s[1..]) + [""];
      BetweenAllIsJoin(s[1..], repl);
      assert Characters(s) == [[s[0]]] + Characters(s[1..]);
      assert Characters(s) + [""] == [[s[0]]] + rest;
      JoinCons([s[0]], rest, repl);
      PutBetween(repl, [s[0]], Join(rest, repl));
    }
  }

  lemma PutBetween(a: string, b: string, c: string)
    ensures a + b + (a + c) == a + (b + a + c)
  {
  }

  lemma {:induction false} BetweenAllLength(s: string, repl: string)
    ensures |BetweenAll(s, repl)| == |s| + (|s| + 1) * |repl|
    ensures repl == "" ==> BetweenAll(s, repl) == s
  {
    if |s| == 0 {
    } else {
      BetweenAllLength(s[1..], repl);
      assert repl == "" ==> repl + [s[0]] + s[1..] == s;
    }
  }

  /** The code leaves the string alone, which is right only where there is nothing to put in. */
  method EmptyNeedle(s: string, repl: string) returns (result: string)
    ensures result == BetweenAll(s, repl) <==> repl == ""
  {
    result := Substitute(s, "", repl, true);
    BetweenAllLength(s, repl);
    if repl != "" {
      assert (|s| + 1) * |repl| > 0;
    }
  }

  // ---------------------------------------------------------------------------------------------
  // join
  // ---------------------------------------------------------------------------------------------

  /** Nothing and one string; `JoinConcat` gives the rest. */
  lemma JoinFew(piece: string, sep: string)
    ensures Join([], sep) == "" && Join([piece], sep) == piece
  {
  }

  /** The most elements `join` looks at. */
  const MAX_JOINED := 4096

  lemma {:induction false} JoinSnoc(pieces: seq<string>, sep: string, last: string)
    ensures Join(pieces + [last], sep) == if |pieces| == 0 then last else Join(pieces, sep) + sep + last
  {
    if |pieces| > 0 {
      JoinConcat(pieces, [last], sep);
    } else {
      assert pieces + [last] == [last];
    }
  }

  lemma JoinNext(pieces: seq<string>, sep: string, i: nat)
    requires i < |pieces|
    ensures Join(pieces[..i + 1], sep) == Join(pieces[..i], sep) + (if i > 0 then sep else "") + pieces[i]
  {
    assert pieces[..i + 1] == pieces[..i] + [pieces[i]];
    JoinSnoc(pieces[..i], sep, pieces[i]);
    assert Join(pieces[..i], sep) + "" == Join(pieces[..i], sep);
  }

  /** The size of the buffer: the joined text and its terminating NUL. */
  method Measure(strs: seq<string>, sep: string) returns (total: nat)
    ensures total == |Join(strs, sep)| + 1
  {
    total := 1;
    for i := 0 to |strs|
      invariant total == |Join(strs[..i], sep)| + 1
    {
      JoinNext(strs, sep, i);
      total := total + |strs[i]| + (if i > 0 then |sep| else 0);
    }
    assert strs[..|strs|] == strs;
  }

  method WritePiece(buf: array<char>, used: nat, sep: string, piece: string) returns (now: nat)
    requires used + |sep| + |piece| < buf.Length
    modifies buf
    ensures now == used + |sep| + |piece| && buf[..now] == old(buf[..used]) + sep + piece
  {
    now := used;
    if |sep| > 0 {
      Write(buf, now, sep);
      now := now + |sep|;
    }
    Write(buf, now, piece);
    now := now + |piece|;
  }

  /** `join` of strings: measure first, then fill a buffer of exactly that size. */
  method JoinArray(strs: seq<string>, sep: string) returns (result: string)
    ensures result == Join(if |strs| <= MAX_JOINED then strs else strs[..MAX_JOINED], sep)
  {
    var n := if |strs| < MAX_JOINED then |strs| else MAX_JOINED;
    var total := Measure(strs[..n], sep);
    ghost var pieces := strs[..n];
    assert |strs| <= MAX_JOINED ==> pieces == strs;
    var buf, used := new char[total], 0;
    buf[0] := '\0';
    for i := 0 to n
      invariant 0 <= used == |Join(pieces[..i], sep)| < total
      invariant buf[..used] == Join(pieces[..i], sep)
    {
      JoinNext(pieces, sep, i);
      JoinPrefix(pieces, sep, i + 1);
      used := WritePiece(buf, used, if i > 0 then sep else "", strs[i]);
    }
    assert pieces[..n] == pieces;
    result := buf[..used];
  }

  lemma JoinPrefix(pieces: seq<string>, sep: string, n: nat)
    requires n <= |pieces|
    ensures |Join(pieces[..n], sep)| <= |Join(pieces, sep)|
    ensures 0 < n < |pieces| && |sep| > 0 ==> |Join(pieces[..n], sep)| < |Join(pieces, sep)|
  {
    if 0 < n < |pieces| {
      JoinConcat(pieces[..n], pieces[n..], sep);
      assert pieces == pieces[..n] + pieces[n..];
    } else if n == |pieces| {
      assert pieces[..n] == pieces;
    }
  }

  /** Splitting without limit and joining gives the string back unless there are too many pieces. */
  method SplitAndJoin(s: string, sep: string) returns (joined: string)
    requires sep != " "
    ensures joined == s <==> (if sep == "" then |s| else |Pieces(s, sep, 0)|) <= MAX_JOINED
  {
    var arr := Split(s, sep, -1);
    joined := JoinArray(arr, sep);
    if sep == "" {
      CharactersPrefix(s, if |s| <= MAX_JOINED then |s| else MAX_JOINED);
      assert arr[..|arr|] == arr;
    } else {
      JoinSplit(s, sep, -1);
      JoinPrefix(arr, sep, if |arr| <= MAX_JOINED then |arr| else MAX_JOINED);
    }
  }

  lemma CharactersPrefix(s: string, n: nat)
    requires n <= |s|
    ensures Join(Characters(s)[..n], "") == s[..n]
  {
    assert Characters(s)[..n] == Characters(s[..n]);
    JoinCharacters(s[..n]);
  }
}
