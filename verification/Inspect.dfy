/**
  * `String#inspect` and its inverse `undump`, over the bytes of a C string before its terminating NUL.
  */
module Inspect {

  type Byte = b: int | 0 <= b < 256

  const QUOTE: Byte := 34
  const APOSTROPHE: Byte := 39
  const BACKSLASH: Byte := 92

  /** The digit characters 0-9 and a-f. */
  function HexDigit(d: int): Byte
    requires 0 <= d < 16
  {
    if d < 10 then 48 + d else 87 + d
  }

  predicate IsHex(c: Byte) {
    48 <= c <= 57 || 65 <= c <= 70 || 97 <= c <= 102
  }

  function HexValue(c: Byte): (d: int)
    requires IsHex(c)
    ensures 0 <= d < 16
  {
    if c <= 57 then c - 48 else if c <= 70 then c - 55 else c - 87
  }

  // ---------------------------------------------------------------------------------------------
  // inspect
  // ---------------------------------------------------------------------------------------------

  /** How one byte is printed. */
  function Escaped(c: Byte): (r: seq<Byte>)
    ensures 1 <= |r| <= 4
  {
    if c == QUOTE then [BACKSLASH, QUOTE]
    else if c == BACKSLASH then [BACKSLASH, BACKSLASH]
    else if c == 10 then [BACKSLASH, 110]
    else if c == 13 then [BACKSLASH, 114]
    else if c == 9 then [BACKSLASH, 116]
    else if c == 27 then [BACKSLASH, 101]
    else if c < 0x20 || c == 0x7f then [BACKSLASH, 120, HexDigit(c / 16), HexDigit(c % 16)]
    else [c]
  }

  function Body(s: seq<Byte>): (r: seq<Byte>)
    ensures |r| <= 4 * |s|
  {
    if |s| == 0 then [] else Escaped(s[0]) + Body(s[1..])
  }

  function Printed(s: seq<Byte>): seq<Byte> {
    [QUOTE] + Body(s) + [QUOTE]
  }

  lemma BodyCons(c: Byte, s: seq<Byte>)
    ensures Body([c] + s) == Escaped(c) + Body(s)
  {
    assert ([c] + s)[1..] == s;
  }

  lemma {:induction false} BodySnoc(s: seq<Byte>, c: Byte)
    ensures Body(s + [c]) == Body(s) + Escaped(c)
  {
    if |s| == 0 {
      BodyCons(c, s);
      assert s + [c] == [c] + s;
    } else {
      BodySnoc(s[1..], c);
      BodyCons(s[0], s[1..] + [c]);
      Advance(Escaped(s[0]), Body(s[1..]), Escaped(c));
      assert s + [c] == [s[0]] + (s[1..] + [c]);
    }
  }

  /** Writing the printed form of one byte at the running index. */
  method PutByte(buf: array<Byte>, j: nat, c: Byte) returns (next: nat)
    requires j + |Escaped(c)| <= buf.Length
    modifies buf
    ensures next == j + |Escaped(c)| && buf[..next] == old(buf[..j]) + Escaped(c)
  {
    next := j;
    if c == QUOTE {
      buf[next], buf[next + 1] := BACKSLASH, QUOTE;
      next := next + 2;
    } else if c == BACKSLASH {
      buf[next], buf[next + 1] := BACKSLASH, BACKSLASH;
      next := next + 2;
    } else if c == 10 {
      buf[next], buf[next + 1] := BACKSLASH, 110;
      next := next + 2;
    } else if c == 13 {
      buf[next], buf[next + 1] := BACKSLASH, 114;
      next := next + 2;
    } else if c == 9 {
      buf[next], buf[next + 1] := BACKSLASH, 116;
      next := next + 2;
    } else if c == 27 {
      buf[next], buf[next + 1] := BACKSLASH, 101;
      next := next + 2;
    } else if c < 0x20 || c == 0x7f {
      buf[next], buf[next + 1] := BACKSLASH, 120;
      buf[next + 2], buf[next + 3] := HexDigit(c / 16), HexDigit(c % 16);
      next := next + 4;
    } else {
      buf[next] := c;
      next := next + 1;
    }
  }

  /** `inspect`: every write, the final NUL included, is inside a buffer of 4 * len + 3 bytes. */
  method InspectString(s: seq<Byte>) returns (printed: seq<Byte>)
    ensures printed == Printed(s)
    ensures |printed| + 1 <= 4 * |s| + 3
  {
    var buf := new Byte[4 * |s| + 3];
    var j := 0;
    buf[j] := QUOTE;
    j := j + 1;
    for i := 0 to |s|
      invariant 0 <= j <= 4 * i + 1
      invariant buf[..j] == [QUOTE] + Body(s[..i])
    {
      BodySnoc(s[..i], s[i]);
      assert s[..i + 1] == s[..i] + [s[i]];
      Advance([QUOTE], Body(s[..i]), Escaped(s[i]));
      j := PutByte(buf, j, s[i]);
    }
    assert s[..|s|] == s;
    buf[j] := QUOTE;
    j := j + 1;
    buf[j] := 0;
    printed := buf[..j];
  }

  // ---------------------------------------------------------------------------------------------
  // undump
  // ---------------------------------------------------------------------------------------------

  /** The byte that a one-letter escape stands for, or -1. */
  function Letter(c: Byte): int {
    if c == 110 then 10
    else if c == 116 then 9
    else if c == 114 then 13
    else if c == QUOTE || c == APOSTROPHE || c == BACKSLASH then c
    else if c == 97 then 7
    else if c == 98 then 8
    else if c == 101 then 27
    else -1
  }

  /** How many of the at most two hex digits from position `i` are there. */
  function HexRun(s: seq<Byte>, i: nat, end: nat): (n: nat)
    requires end <= |s|
    ensures n <= 2 && i + n <= if i < end then end else i
  {
    if i < end && IsHex(s[i]) then (if i + 1 < end && IsHex(s[i + 1]) then 2 else 1) else 0
  }

  function HexNumber(s: seq<Byte>, i: nat, n: nat): (v: Byte)
    requires n <= 2 && i + n <= |s| && forall k :: i <= k < i + n ==> IsHex(s[k])
  {
    if n == 0 then 0 else if n == 1 then HexValue(s[i]) else HexValue(s[i]) * 16 + HexValue(s[i + 1])
  }

  /** What is read at `si`: the bytes it stands for and how far it reaches. */
  ghost function Unit(s: seq<Byte>, si: nat, end: nat): (r: (seq<Byte>, nat))
    requires si < end <= |s|
    ensures |r.0| <= r.1 && 1 <= r.1 && si + r.1 <= end
  {
    if s[si] == BACKSLASH && si + 1 < end then
      var c := s[si + 1];
      if Letter(c) >= 0 then ([Letter(c) as Byte], 2)
      else if c == 120 then
        var n := HexRun(s, si + 2, end);
        ([HexNumber(s, si + 2, n)], 2 + n)
      else ([BACKSLASH, c], 2)
    else ([s[si]], 1)
  }

  /** What the text from `si` up to `end` stands for. */
  ghost function Unescaped(s: seq<Byte>, si: nat, end: nat): seq<Byte>
    requires end <= |s|
    decreases end - si
  {
    if si >= end then [] else Unit(s, si, end).0 + Unescaped(s, si + Unit(s, si, end).1, end)
  }

  /** A quote at either end of a text of at least two bytes is dropped. */
  ghost function Undumped(s: seq<Byte>): seq<Byte> {
    var si := if |s| >= 2 && s[0] == QUOTE then 1 else 0;
    var end := if |s| >= 2 && s[|s| - 1] == QUOTE then |s| - 1 else |s|;
    Unescaped(s, si, end)
  }

  /** The hex digits of an `\x` escape, from the position before the first one. */
  method ReadHex(s: seq<Byte>, start: nat, end: nat) returns (value: Byte, si: nat)
    requires start < end <= |s|
    ensures si == start + HexRun(s, start + 1, end)
    ensures value == HexNumber(s, start + 1, HexRun(s, start + 1, end))
  {
    si, value := start, 0;
    if si + 1 < end && IsHex(s[si + 1]) {
      si := si + 1;
      value := HexValue(s[si]);
      if si + 1 < end && IsHex(s[si + 1]) {
        si := si + 1;
        value := value * 16 + HexValue(s[si]);
      }
    }
  }

  /** One round of `undump`: what is read at `si` is written at `bi`. */
  method PutUnit(s: seq<Byte>, start: nat, end: nat, buf: array<Byte>, at: nat) returns (si: nat, bi: nat)
    requires start < end <= |s| && at <= start && end < buf.Length
    modifies buf
    ensures var u := Unit(s, start, end);
            si == start + u.1 && bi == at + |u.0| && bi <= buf.Length && buf[..bi] == old(buf[..at]) + u.0
  {
    si, bi := start, at;
    if s[si] == BACKSLASH && si + 1 < end {
      si := si + 1;
      var c := s[si];
      if Letter(c) >= 0 {
        buf[bi] := Letter(c);
        bi := bi + 1;
      } else if c == 120 {
        buf[bi], si := ReadHex(s, si, end);
        bi := bi + 1;
      } else {
        buf[bi], buf[bi + 1] := BACKSLASH, c;
        bi := bi + 2;
      }
    } else {
      buf[bi] := s[si];
      bi := bi + 1;
    }
    si := si + 1;
  }

  /** `undump`, in a buffer one byte longer than the text. */
  method Undump(s: seq<Byte>) returns (r: seq<Byte>)
    ensures r == Undumped(s)
  {
    var si, end := 0, |s|;
    if |s| >= 2 && s[0] == QUOTE {
      si := 1;
    }
    if |s| >= 2 && s[|s| - 1] == QUOTE {
      end := |s| - 1;
    }
    var buf, bi := new Byte[|s| + 1], 0;
    ghost var written := buf[..0];
    while si < end
      invariant 0 <= bi <= si && (si <= end || bi == 0) && fresh(buf)
      invariant buf[..bi] == written && written + Unescaped(s, si, end) == Undumped(s)
      decreases end - si
    {
      ghost var u := Unit(s, si, end);
      Advance(written, u.0, Unescaped(s, si + u.1, end));
      si, bi := PutUnit(s, si, end, buf, bi);
      written := written + u.0;
    }
    assert written + [] == written;
    buf[bi] := 0;
    r := buf[..bi];
  }

  lemma Advance(a: seq<Byte>, b: seq<Byte>, c: seq<Byte>)
    ensures a + (b + c) == (a + b) + c
  {
  }

  // ---------------------------------------------------------------------------------------------
  // Round trip
  // ---------------------------------------------------------------------------------------------

  /** Reading one printed byte gives it back, whatever follows: an escape never takes more than its own. */
  lemma OneBack(p: seq<Byte>, si: nat, end: nat, c: Byte)
    requires si + |Escaped(c)| <= end <= |p|
    requires forall k :: 0 <= k < |Escaped(c)| ==> p[si + k] == Escaped(c)[k]
    ensures Unescaped(p, si, end) == [c] + Unescaped(p, si + |Escaped(c)|, end)
  {
    var e := Escaped(c);
    assert p[si] == e[0];
    if |e| == 2 {
      assert p[si + 1] == e[1];
    } else if |e| == 4 {
      assert p[si + 1] == e[1] && p[si + 2] == e[2] && p[si + 3] == e[3];
      assert HexRun(p, si + 2, end) == 2;
      assert HexNumber(p, si + 2, 2) == c;
    }
  }

  lemma {:induction false} BodyBack(p: seq<Byte>, si: nat, end: nat, s: seq<Byte>)
    requires si <= end <= |p| && p[si..end] == Body(s)
    ensures Unescaped(p, si, end) == s
    decreases |s|
  {
    if |s| == 0 {
    } else {
      var next := HeadBack(p, si, end, s[0], Body(s[1..]));
      BodyBack(p, next, end, s[1..]);
      assert s == [s[0]] + s[1..];
    }
  }

  lemma HeadBack(p: seq<Byte>, si: nat, end: nat, c: Byte, rest: seq<Byte>) returns (next: nat)
    requires si <= end <= |p| && p[si..end] == Escaped(c) + rest
    ensures si < next <= end && p[next..end] == rest && Unescaped(p, si, end) == [c] + Unescaped(p, next, end)
  {
    next := si + |Escaped(c)|;
    FirstByte(p, si, end, Escaped(c), rest);
    OneBack(p, si, end, c);
  }

  lemma FirstByte(p: seq<Byte>, si: nat, end: nat, first: seq<Byte>, rest: seq<Byte>)
    requires si <= end <= |p| && p[si..end] == first + rest
    ensures si + |first| <= end && p[si + |first|..end] == rest
    ensures forall k :: 0 <= k < |first| ==> p[si + k] == first[k]
  {
    assert |first + rest| == end - si;
    forall k | 0 <= k < |first|
      ensures p[si + k] == first[k]
    {
      assert p[si..end][k] == (first + rest)[k];
    }
    assert p[si + |first|..end] == p[si..end][|first|..];
  }

  /** `undump` undoes `inspect` for every string, and so different strings print differently. */
  lemma RoundTrip(s: seq<Byte>)
    ensures Undumped(Printed(s)) == s
  {
    var p := Printed(s);
    assert p[0] == QUOTE && p[|p| - 1] == QUOTE;
    assert p[1..|p| - 1] == Body(s);
    BodyBack(p, 1, |p| - 1, s);
  }

  lemma PrintedDiffers(s: seq<Byte>, t: seq<Byte>)
    ensures Printed(s) == Printed(t) <==> s == t
  {
    RoundTrip(s);
    RoundTrip(t);
  }

  // ---------------------------------------------------------------------------------------------
  // The escapes, spelled out
  // ---------------------------------------------------------------------------------------------

  const LOWER := "0123456789abcdef"
  const UPPER := "0123456789ABCDEF"

  /** The bytes of an ASCII text. */
  function Ascii(t: string): (r: seq<Byte>)
    requires forall i :: 0 <= i < |t| ==> t[i] as int < 128
    ensures |r| == |t| && forall i :: 0 <= i < |t| ==> r[i] == t[i] as int
  {
    seq(|t|, i requires 0 <= i < |t| => t[i] as int)
  }

  lemma EscapeTable()
    ensures Escaped('\n' as int) == Ascii("\\n") && Escaped('\t' as int) == Ascii("\\t")
    ensures Escaped('\r' as int) == Ascii("\\r") && Escaped(27) == Ascii("\\e")
    ensures Escaped('\"' as int) == Ascii("\\\"") && Escaped('\\' as int) == Ascii("\\\\")
  {
  }

  /** The other control characters are printed as two lower-case hex digits, and everything else as it is. */
  lemma EscapeControl(c: Byte)
    requires c !in [9, 10, 13, 27] && (c < 32 || c == 127)
    ensures |Escaped(c)| == 4 && Escaped(c)[0] == BACKSLASH && Escaped(c)[1] == 'x' as int
    ensures Escaped(c)[2] as char == LOWER[c / 16] && Escaped(c)[3] as char == LOWER[c % 16]
  {
    DigitOf(c / 16);
    DigitOf(c % 16);
  }

  lemma EscapePlain(c: Byte)
    requires 32 <= c && c !in [34, 92, 127]
    ensures Escaped(c) == [c]
  {
  }

  lemma DigitOf(d: nat)
    requires d < 16
    ensures HexDigit(d) as char == LOWER[d]
  {
  }

  /** A text of one escape, between quotes. */
  lemma UndumpOne(c: Byte)
    ensures Undumped([QUOTE, BACKSLASH, c, QUOTE]) ==
              if Letter(c) >= 0 then [Letter(c)] else if c == 120 then [0] else [BACKSLASH, c]
  {
    var s := [QUOTE, BACKSLASH, c, QUOTE];
    assert Unescaped(s, 3, 3) == [];
    assert Unescaped(s, 1, 3) == Unit(s, 1, 3).0;
  }

  /** The text `"\\` and `c` and `"`. */
  lemma UndumpLetter(c: char)
    requires c as int < 128 && Letter(c as int) >= 0
    ensures Undumped(Ascii("\"\\" + [c] + "\"")) == [Letter(c as int)]
  {
    var t := "\"\\" + [c] + "\"";
    assert t[0] == '\"' && t[1] == '\\' && t[2] == c && t[3] == '\"';
    assert Ascii(t) == [QUOTE, BACKSLASH, c as int, QUOTE];
    UndumpOne(c as int);
  }

  lemma UndumpTable(c: char, b: int)
    requires (c, b) in [('n', 10), ('t', 9), ('r', 13), ('e', 27), ('a', 7), ('b', 8),
                        ('\"', 34), ('\'', 39), ('\\', 92)]
    ensures Undumped(Ascii("\"\\" + [c] + "\"")) == [b]
  {
    UndumpLetter(c);
  }

  /** A backslash before any other letter stays, with the letter. */
  lemma UndumpOther(c: Byte)
    requires c !in Ascii("ntrabex\"'\\")
    ensures Undumped([QUOTE, BACKSLASH, c, QUOTE]) == [BACKSLASH, c]
  {
    var t := Ascii("ntrabex\"'\\");
    assert t == [110, 116, 114, 97, 98, 101, 120, 34, 39, 92];
    UndumpOne(c);
  }

  /** `\x` takes two digits of either case, or one when no other digit follows, or none. */
  lemma UndumpTwoDigits(high: Byte, low: Byte, h: nat, l: nat)
    requires h < 16 && l < 16 && high as char in [LOWER[h], UPPER[h]] && low as char in [LOWER[l], UPPER[l]]
    ensures Undumped([QUOTE, BACKSLASH, 'x' as int, high, low, QUOTE]) == [16 * h + l]
  {
    DigitValue(high, h);
    DigitValue(low, l);
    var s := [QUOTE, BACKSLASH, 'x' as int, high, low, QUOTE];
    assert Unescaped(s, 5, 5) == [];
    assert Unescaped(s, 1, 5) == Unit(s, 1, 5).0;
  }

  lemma UndumpOneDigit(high: Byte, h: nat, next: Byte)
    requires h < 16 && high as char in [LOWER[h], UPPER[h]] && !IsHex(next) && next != BACKSLASH
    ensures Undumped([QUOTE, BACKSLASH, 'x' as int, high, next, QUOTE]) == [h, next]
  {
    DigitValue(high, h);
    var s := [QUOTE, BACKSLASH, 'x' as int, high, next, QUOTE];
    assert Unescaped(s, 5, 5) == [] && Unescaped(s, 4, 5) == [next];
    assert Unescaped(s, 1, 5) == Unit(s, 1, 5).0 + [next];
  }

  lemma UndumpNoDigit(next: Byte)
    requires !IsHex(next) && next != BACKSLASH
    ensures Undumped([QUOTE, BACKSLASH, 'x' as int, next, QUOTE]) == [0, next]
  {
    var s := [QUOTE, BACKSLASH, 'x' as int, next, QUOTE];
    assert Unescaped(s, 4, 4) == [] && Unescaped(s, 3, 4) == [next];
    assert Unescaped(s, 1, 4) == Unit(s, 1, 4).0 + [next];
  }

  lemma DigitValue(c: Byte, d: nat)
    requires d < 16 && c as char in [LOWER[d], UPPER[d]]
    ensures IsHex(c) && HexValue(c) == d
  {
    DigitOf(d);
    UpperDigit(d);
  }

  lemma UpperDigit(d: nat)
    requires d < 16
    ensures UPPER[d] as int == if d < 10 then 48 + d else 55 + d
  {
  }

  /** Exactly the characters of the two lists are digits. */
  lemma HexIff(c: Byte)
    ensures IsHex(c) <==> c as char in LOWER || c as char in UPPER
  {
    if IsHex(c) {
      DigitOf(HexValue(c));
      UpperDigit(HexValue(c));
    }
    if d: nat :| d < 16 && LOWER[d] == c as char {
      DigitValue(c, d);
    }
    if d: nat :| d < 16 && UPPER[d] == c as char {
      DigitValue(c, d);
    }
  }

  /** A backslash with nothing after it stays. */
  lemma UndumpLoneBackslash()
    ensures Undumped([BACKSLASH]) == [BACKSLASH] && Undumped([QUOTE, BACKSLASH, QUOTE]) == [BACKSLASH]
  {
    assert Unescaped([BACKSLASH], 1, 1) == [] && Unescaped([QUOTE, BACKSLASH, QUOTE], 2, 2) == [];
  }

  /** A quote at one end only goes too; a lone quote stays. */
  lemma UndumpQuotes(c: Byte)
    requires c != QUOTE && c != BACKSLASH
    ensures Undumped([QUOTE, c]) == [c] && Undumped([c, QUOTE]) == [c] && Undumped([c]) == [c]
    ensures Undumped([QUOTE]) == [QUOTE] && Undumped([QUOTE, QUOTE]) == []
  {
    assert Unescaped([QUOTE, c], 2, 2) == [] && Unescaped([c, QUOTE], 1, 1) == [];
    assert Unescaped([c], 1, 1) == [] && Unescaped([QUOTE], 1, 1) == [];
  }
}
