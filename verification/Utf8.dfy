/**
  * `Integer#chr` and `String#codepoints`: the encoding of section 3 of RFC 3629, and the loop that
  * reads it back. Integers are 64-bit words in two's complement, a byte is a word below 256.
  */
module Utf8 {

  type Word = bv64

  type Byte = b: Word | b < 0x100 witness 0

  const MAX_CODE_POINT: Word := 0x10FFFF

  datatype Outcome = Char(bytes: seq<Byte>) | RangeError

  predicate Negative(n: Word) {
    n >= 0x8000_0000_0000_0000
  }

  // ---------------------------------------------------------------------------------------------
  // chr
  // ---------------------------------------------------------------------------------------------

  /** The bytes of a code point: 0xxxxxxx, 110xxxxx, 1110xxxx or 11110xxx, then 10xxxxxx. */
  function Encode(n: Word): (bytes: seq<Byte>)
    requires n <= MAX_CODE_POINT
    ensures 1 <= |bytes| <= 4
    ensures Width(bytes[0]) == |bytes|
    ensures forall k :: 1 <= k < |bytes| ==> bytes[k] & 0xC0 == 0x80
  {
    if n < 0x80 then [n]
    else if n < 0x800 then [0xC0 | (n >> 6), 0x80 | (n & 0x3F)]
    else if n < 0x10000 then [0xE0 | (n >> 12), 0x80 | ((n >> 6) & 0x3F), 0x80 | (n & 0x3F)]
    else [0xF0 | (n >> 18), 0x80 | ((n >> 12) & 0x3F), 0x80 | ((n >> 6) & 0x3F), 0x80 | (n & 0x3F)]
  }

  /** `chr`: a RangeError exactly outside 0..0x10FFFF; surrogates are encoded like any other value. */
  function Chr(n: Word): (r: Outcome)
    ensures r.RangeError? <==> Negative(n) || n > MAX_CODE_POINT
    ensures r.Char? ==> n <= MAX_CODE_POINT && r.bytes == Encode(n)
  {
    if Negative(n) || n > MAX_CODE_POINT then RangeError
    else if n <= 127 then Char([n])
    else Char(Encode(n))
  }

  /** The text of several characters, one after the other. */
  function EncodeAll(ns: seq<Word>): seq<Byte>
    requires forall i :: 0 <= i < |ns| ==> ns[i] <= MAX_CODE_POINT
  {
    if |ns| == 0 then [] else Encode(ns[0]) + EncodeAll(ns[1..])
  }

  // ---------------------------------------------------------------------------------------------
  // codepoints
  // ---------------------------------------------------------------------------------------------

  /** How many bytes a first byte announces; a stray continuation byte stands for itself. */
  function Width(c: Byte): (w: nat)
    ensures 1 <= w <= 4
  {
    if c < 0xC0 then 1 else if c < 0xE0 then 2 else if c < 0xF0 then 3 else 4
  }

  function FirstBits(c: Byte): Word {
    if c < 0xC0 then c else if c < 0xE0 then c & 0x1F else if c < 0xF0 then c & 0x0F else c & 0x07
  }

  /** The value built from the bytes at i + j up to i + width, as far as the string goes. */
  function Collect(s: seq<Byte>, i: nat, j: nat, width: nat, cp: Word): Word
    decreases width - j
  {
    if j < width && i + j < |s| then Collect(s, i, j + 1, width, (cp << 6) | (s[i + j] & 0x3F)) else cp
  }

  function Decode(s: seq<Byte>, i: nat): seq<Word>
    decreases |s| - i
  {
    if i >= |s| then []
    else [Collect(s, i, 1, Width(s[i]), FirstBits(s[i]))] + Decode(s, i + Width(s[i]))
  }

  /** One round of the loop: the first byte chooses width and bits, the inner loop adds the others. */
  method ReadOne(s: seq<Byte>, i: nat) returns (cp: Word, width: nat)
    requires i < |s|
    ensures width == Width(s[i]) && cp == Collect(s, i, 1, width, FirstBits(s[i]))
  {
    var c := s[i];
    if c < 0x80 {
      cp, width := c, 1;
    } else if c < 0xC0 {
      cp, width := c, 1;
    } else if c < 0xE0 {
      cp, width := c & 0x1F, 2;
    } else if c < 0xF0 {
      cp, width := c & 0x0F, 3;
    } else {
      cp, width := c & 0x07, 4;
    }
    var j := 1;
    ghost var first := cp;
    while j < width && i + j < |s|
      invariant 1 <= j && Collect(s, i, j, width, cp) == Collect(s, i, 1, width, first)
      decreases width - j
    {
      cp := (cp << 6) | (s[i + j] & 0x3F);
      j := j + 1;
    }
  }

  method Codepoints(s: seq<Byte>) returns (arr: seq<Word>)
    ensures arr == Decode(s, 0)
  {
    arr := [];
    var i := 0;
    while i < |s|
      invariant 0 <= i && arr + Decode(s, i) == Decode(s, 0)
      decreases |s| - i
    {
      var cp, width := ReadOne(s, i);
      DecodeStep(s, i, arr, cp, width);
      arr := arr + [cp];
      i := i + width;
    }
  }

  lemma DecodeStep(s: seq<Byte>, i: nat, arr: seq<Word>, cp: Word, width: nat)
    requires i < |s| && width == Width(s[i]) && cp == Collect(s, i, 1, width, FirstBits(s[i]))
    ensures arr + Decode(s, i) == (arr + [cp]) + Decode(s, i + width)
  {
    var rest := Decode(s, i + width);
    assert Decode(s, i) == [cp] + rest;
    AppendOne(arr, cp, rest);
  }

  lemma AppendOne(arr: seq<Word>, cp: Word, rest: seq<Word>)
    ensures arr + ([cp] + rest) == (arr + [cp]) + rest
  {
  }

  // ---------------------------------------------------------------------------------------------
  // Round trip
  // ---------------------------------------------------------------------------------------------

  function Shifted(cp: Word, c: Byte): Word {
    (cp << 6) | (c & 0x3F)
  }

  /** The bits of a code point survive being spread over bytes. */
  lemma BitsOfTwo(n: Word)
    requires 0x80 <= n < 0x800
    ensures Shifted(FirstBits(0xC0 | (n >> 6)), 0x80 | (n & 0x3F)) == n
  {
  }

  lemma BitsOfThree(n: Word)
    requires 0x800 <= n < 0x10000
    ensures Shifted(Shifted(FirstBits(0xE0 | (n >> 12)), 0x80 | ((n >> 6) & 0x3F)), 0x80 | (n & 0x3F)) == n
  {
  }

  lemma BitsOfFour(n: Word)
    requires 0x10000 <= n <= MAX_CODE_POINT
    ensures Shifted(Shifted(Shifted(FirstBits(0xF0 | (n >> 18)), 0x80 | ((n >> 12) & 0x3F)),
                            0x80 | ((n >> 6) & 0x3F)), 0x80 | (n & 0x3F)) == n
  {
  }

  lemma TwoBytes(s: seq<Byte>, i: nat, n: Word)
    requires 0x80 <= n < 0x800 && i + 2 <= |s| && s[i] == Encode(n)[0] && s[i + 1] == Encode(n)[1]
    ensures Collect(s, i, 1, 2, FirstBits(s[i])) == n
  {
    BitsOfTwo(n);
    assert Collect(s, i, 1, 2, FirstBits(s[i])) == Shifted(FirstBits(s[i]), s[i + 1]);
  }

  lemma CollectThree(s: seq<Byte>, i: nat, cp: Word)
    requires i + 3 <= |s|
    ensures Collect(s, i, 1, 3, cp) == Shifted(Shifted(cp, s[i + 1]), s[i + 2])
  {
    assert Collect(s, i, 1, 3, cp) == Collect(s, i, 2, 3, Shifted(cp, s[i + 1]));
  }

  lemma ThreeBytes(s: seq<Byte>, i: nat, n: Word)
    requires 0x800 <= n < 0x10000 && i + 3 <= |s|
    requires s[i] == Encode(n)[0] && s[i + 1] == Encode(n)[1] && s[i + 2] == Encode(n)[2]
    ensures Collect(s, i, 1, 3, FirstBits(s[i])) == n
  {
    BitsOfThree(n);
    CollectThree(s, i, FirstBits(s[i]));
  }

  lemma CollectFour(s: seq<Byte>, i: nat, cp: Word)
    requires i + 4 <= |s|
    ensures Collect(s, i, 1, 4, cp) == Shifted(Shifted(Shifted(cp, s[i + 1]), s[i + 2]), s[i + 3])
  {
    var next := Shifted(cp, s[i + 1]);
    assert Collect(s, i, 1, 4, cp) == Collect(s, i, 2, 4, next);
    assert Collect(s, i, 2, 4, next) == Collect(s, i, 3, 4, Shifted(next, s[i + 2]));
  }

  lemma FourBytes(s: seq<Byte>, i: nat, n: Word)
    requires 0x10000 <= n <= MAX_CODE_POINT && i + 4 <= |s| && s[i] == Encode(n)[0]
    requires s[i + 1] == Encode(n)[1] && s[i + 2] == Encode(n)[2] && s[i + 3] == Encode(n)[3]
    ensures Collect(s, i, 1, 4, FirstBits(s[i])) == n
  {
    BitsOfFour(n);
    CollectFour(s, i, FirstBits(s[i]));
  }

  /** `e` stands in `s` at position `i`. */
  ghost predicate StandsAt(s: seq<Byte>, i: nat, e: seq<Byte>) {
    i + |e| <= |s| && forall k :: 0 <= k < |e| ==> s[i + k] == e[k]
  }

  /** Reading one character wherever its bytes stand in a string gives the code point back. */
  lemma DecodeOne(s: seq<Byte>, i: nat, n: Word)
    requires n <= MAX_CODE_POINT && StandsAt(s, i, Encode(n))
    ensures Width(s[i]) == |Encode(n)|
    ensures Collect(s, i, 1, Width(s[i]), FirstBits(s[i])) == n
  {
    assert s[i + 0] == Encode(n)[0];
    assert forall k :: 0 <= k < |Encode(n)| ==> s[i + k] == Encode(n)[k];
    if n >= 0x10000 {
      FourBytes(s, i, n);
    } else if n >= 0x800 {
      ThreeBytes(s, i, n);
    } else if n >= 0x80 {
      TwoBytes(s, i, n);
    }
  }

  lemma MiddleStands(before: seq<Byte>, e: seq<Byte>, rest: seq<Byte>)
    ensures StandsAt(before + e + rest, |before|, e)
  {
  }

  lemma DecodeNext(s: seq<Byte>, i: nat, n: Word)
    requires n <= MAX_CODE_POINT && StandsAt(s, i, Encode(n))
    ensures Decode(s, i) == [n] + Decode(s, i + |Encode(n)|)
  {
    DecodeOne(s, i, n);
  }

  lemma DecodeFirst(before: seq<Byte>, n: Word, rest: seq<Byte>, later: seq<Word>)
    requires n <= MAX_CODE_POINT
    requires Decode((before + Encode(n)) + rest, |before + Encode(n)|) == later
    ensures Decode(before + (Encode(n) + rest), |before|) == [n] + later
  {
    Regroup(before, Encode(n), rest);
    MiddleStands(before, Encode(n), rest);
    DecodeNext(before + Encode(n) + rest, |before|, n);
  }

  lemma Regroup(a: seq<Byte>, b: seq<Byte>, c: seq<Byte>)
    ensures a + (b + c) == a + b + c
  {
  }

  /** Decoding the concatenation of characters gives back exactly their code points. */
  lemma {:induction false} RoundTrip(ns: seq<Word>, before: seq<Byte>)
    requires forall i :: 0 <= i < |ns| ==> ns[i] <= MAX_CODE_POINT
    ensures Decode(before + EncodeAll(ns), |before|) == ns
  {
    if |ns| == 0 {
    } else {
      RoundTrip(ns[1..], before + Encode(ns[0]));
      FirstBack(ns, before);
    }
  }

  lemma FirstBack(ns: seq<Word>, before: seq<Byte>)
    requires |ns| > 0 && forall i :: 0 <= i < |ns| ==> ns[i] <= MAX_CODE_POINT
    requires Decode((before + Encode(ns[0])) + EncodeAll(ns[1..]), |before + Encode(ns[0])|) == ns[1..]
    ensures Decode(before + EncodeAll(ns), |before|) == ns
  {
    DecodeFirst(before, ns[0], EncodeAll(ns[1..]), ns[1..]);
    assert ns == [ns[0]] + ns[1..];
  }

  /** No character is a proper prefix of another: what starts with both is the same character. */
  lemma PrefixFree(m: Word, n: Word, s: seq<Byte>)
    requires m <= MAX_CODE_POINT && n <= MAX_CODE_POINT && Encode(m) <= s && Encode(n) <= s
    ensures m == n
  {
    DecodeOne(s, 0, m);
    DecodeOne(s, 0, n);
  }

  /** Different lists of code points have different texts. */
  lemma TextsDiffer(ms: seq<Word>, ns: seq<Word>)
    requires forall i :: 0 <= i < |ms| ==> ms[i] <= MAX_CODE_POINT
    requires forall i :: 0 <= i < |ns| ==> ns[i] <= MAX_CODE_POINT
    ensures EncodeAll(ms) == EncodeAll(ns) <==> ms == ns
  {
    var none: seq<Byte> := [];
    RoundTrip(ms, none);
    RoundTrip(ns, none);
  }

  /** What a first byte of the given width and the bytes after it can hold. */
  lemma TwoBytesHold(c: Byte, d: Byte)
    requires 0xC0 <= c < 0xE0
    ensures Shifted(FirstBits(c), d) < 0x800
  {
  }

  lemma ThreeBytesHold(c: Byte, d: Byte, e: Byte)
    requires 0xE0 <= c < 0xF0
    ensures Shifted(Shifted(FirstBits(c), d), e) < 0x10000
  {
  }

  /** No shorter string of bytes, other than a stray continuation byte, is read as the same code point. */
  lemma ShortestForm(bytes: seq<Byte>, n: Word)
    requires n <= MAX_CODE_POINT && |bytes| > 0 && (bytes[0] < 0x80 || bytes[0] >= 0xC0)
    requires |bytes| == Width(bytes[0]) && Decode(bytes, 0) == [n]
    ensures |Encode(n)| <= |bytes|
  {
    var c := bytes[0];
    assert Collect(bytes, 0, 1, Width(c), FirstBits(c)) == n by {
      assert Decode(bytes, 0)[0] == n;
    }
    if |bytes| == 2 {
      TwoBytesHold(c, bytes[1]);
      assert Collect(bytes, 0, 1, 2, FirstBits(c)) == Shifted(FirstBits(c), bytes[1]);
    } else if |bytes| == 3 {
      ThreeBytesHold(c, bytes[1], bytes[2]);
      CollectThree(bytes, 0, FirstBits(c));
    }
  }

  // ---------------------------------------------------------------------------------------------
  // The bytes, in terms of arithmetic
  // ---------------------------------------------------------------------------------------------

  /** The digits of a code point in base 64, the last ones above 128, the first one above its marker. */
  lemma EncodeTable(n: Word)
    requires n <= MAX_CODE_POINT
    ensures n < 0x80 ==> Encode(n) == [n]
    ensures 0x80 <= n < 0x800 ==> Encode(n) == [192 + n / 64, 128 + n % 64]
    ensures 0x800 <= n < 0x10000 ==> Encode(n) == [224 + n / 4096, 128 + n / 64 % 64, 128 + n % 64]
    ensures 0x10000 <= n ==>
              Encode(n) == [240 + n / 262144, 128 + n / 4096 % 64, 128 + n / 64 % 64, 128 + n % 64]
  {
  }

  /** The euro sign, and what is read from a lone continuation byte and from a character that is cut off. */
  method EuroSign() returns (sign: Outcome, whole: seq<Word>, cut: seq<Word>, stray: seq<Word>)
    ensures sign == Char([0xE2, 0x82, 0xAC])
    ensures whole == [0x20AC] && cut == [0x82] && stray == [0x82]
  {
    sign := Chr(0x20AC);
    var three, two := [0xE2, 0x82, 0xAC], [0xE2, 0x82];
    whole := Codepoints(three);
    cut := Codepoints(two);
    stray := Codepoints([0x82]);
    CollectThree(three, 0, 2);
    assert Width(three[0]) == 3 && FirstBits(three[0]) == 2 && Decode(three, 3) == [];
    assert Width(two[0]) == 3 && FirstBits(two[0]) == 2 && Decode(two, 3) == [];
    assert Collect(two, 0, 1, 3, 2) == Collect(two, 0, 2, 3, Shifted(2, two[1])) == Shifted(2, two[1]);
  }
}
