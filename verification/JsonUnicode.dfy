/** What the parser makes of \u escapes, against the UTF-8 of RFC 3629 section 3. */
module JsonUnicode {
  import opened Bytes
  import opened JsonSpec

  // ----- UTF-8 by the standard's table -----

  predicate IsTail(b: byte) { 0x80 <= b <= 0xBF }

  /** A well-formed UTF-8 sequence, row by row as in the syntax of RFC 3629 section 4. */
  predicate WellFormed(b: seq<byte>) {
    || (|b| == 1 && b[0] <= 0x7F)
    || (|b| == 2 && 0xC2 <= b[0] <= 0xDF && IsTail(b[1]))
    || (|b| == 3 && IsTail(b[1]) && IsTail(b[2])
        && ((b[0] == 0xE0 && b[1] >= 0xA0) || 0xE1 <= b[0] <= 0xEC || (b[0] == 0xED && b[1] <= 0x9F) || 0xEE <= b[0] <= 0xEF))
    || (|b| == 4 && IsTail(b[1]) && IsTail(b[2]) && IsTail(b[3])
        && ((b[0] == 0xF0 && b[1] >= 0x90) || 0xF1 <= b[0] <= 0xF3 || (b[0] == 0xF4 && b[1] <= 0x8F)))
  }

  /** The code point of a well-formed sequence. */
  function CodePoint(b: seq<byte>): int
    requires WellFormed(b)
  {
    var b0: int, b1: int := b[0], if |b| > 1 then b[1] - 0x80 else 0;
    var b2: int, b3: int := if |b| > 2 then b[2] - 0x80 else 0, if |b| > 3 then b[3] - 0x80 else 0;
    if |b| == 1 then b0
    else if |b| == 2 then (b0 - 0xC0) * 64 + b1
    else if |b| == 3 then ((b0 - 0xE0) * 64 + b1) * 64 + b2
    else (((b0 - 0xF0) * 64 + b1) * 64 + b2) * 64 + b3
  }

  predicate IsScalar(cp: int) {
    0 <= cp < 0xD800 || 0xE000 <= cp < 0x110000
  }

  /** Every scalar value is emitted as its own well-formed UTF-8. */
  lemma Utf8IsStandard(cp: int)
    requires IsScalar(cp)
    ensures WellFormed(Utf8(cp)) && CodePoint(Utf8(cp)) == cp
  {
    var u6 := cp / 64;
    var u12 := u6 / 64;
    var u18 := u12 / 64;
    assert cp == u6 * 64 + cp % 64 && u6 == u12 * 64 + u6 % 64 && u12 == u18 * 64 + u12 % 64;
  }

  /** The scalar value a surrogate pair stands for, as in section 2.2 of RFC 2781: 0x10000 plus both halves. */
  function Combine(high: int, low: int): int {
    0x10000 + (high - 0xD800) * 0x400 + (low - 0xDC00)
  }

  /**
   The parser's combination uses OR where the standard adds: the two agree exactly when bit 0x40
   of the high unit is clear. Otherwise the result is short by 0x10000.
   */
  lemma PairIsStandard(high: int, low: int)
    requires 0xD800 <= high <= 0xDBFF && 0xDC00 <= low <= 0xDFFF
    ensures PairCode(high, low) == Combine(high, low) <==> (high / 0x40) % 2 == 0
    ensures (high / 0x40) % 2 == 1 ==> PairCode(high, low) == Combine(high, low) - 0x10000
  {
    var h, l := high - 0xD800, low - 0xDC00;
    assert high % 0x400 == h && low % 0x400 == l;
    var x := h * 0x400 + l;
    assert x / 0x10000 == h / 0x40;
    assert high / 0x40 == h / 0x40 + 0x360;
    assert (high / 0x40) % 2 == (h / 0x40) % 2;
  }

  lemma PairIsScalar(high: int, low: int)
    ensures IsScalar(PairCode(high, low))
  {
  }

  /** A pair whose high unit has the bit set: U+20000 comes out as U+10000. */
  lemma PairWithBitSet()
    ensures Combine(0xD840, 0xDC00) == 0x20000 && PairCode(0xD840, 0xDC00) == 0x10000
  {
  }

  /** One well-formed escape of a single unit yields the UTF-8 of that unit; NUL and lone low halves yield nothing. */
  lemma UnitReads(s: seq<byte>)
    requires IsHex4(s)
    ensures var uc := Hex4(s);
      && (uc != 0 && !(0xD800 <= uc <= 0xDFFF) ==>
            Unicode(s).Ok? && Unicode(s).rest == s[4..]
            && WellFormed(Unicode(s).value) && CodePoint(Unicode(s).value) == uc)
      && (uc == 0 || 0xDC00 <= uc <= 0xDFFF ==> Unicode(s) == Ok([], s[4..]))
  {
    if Hex4(s) != 0 && !(0xD800 <= Hex4(s) <= 0xDFFF) {
      Utf8IsStandard(Hex4(s));
    }
  }

  /** An escaped surrogate pair yields the UTF-8 of its scalar value if and only if bit 0x40 of the high unit is clear. */
  lemma PairReads(s: seq<byte>)
    requires IsHex4(s) && 0xD800 <= Hex4(s) <= 0xDBFF
    requires |s| >= 10 && s[4] == BACKSLASH && s[5] == 'u' as int && IsHex4(s[6..]) && 0xDC00 <= Hex4(s[6..]) <= 0xDFFF
    ensures var p, high, low := Unicode(s), Hex4(s), Hex4(s[6..]);
      && p.Ok? && p.rest == s[10..] && WellFormed(p.value)
      && (CodePoint(p.value) == Combine(high, low) <==> (high / 0x40) % 2 == 0)
  {
    hide WellFormed, CodePoint, Utf8, PairCode, Combine, Hex4;
    var high, low := Hex4(s), Hex4(s[6..]);
    PairIsStandard(high, low);
    PairIsScalar(high, low);
    assert s[4..][0] == BACKSLASH && s[5..][0] == 'u' as int;
    Utf8IsStandard(PairCode(high, low));
  }

  // ----- The size computed by the first pass -----

  /** Bytes counted by the first pass over a string: one per byte, one per backslash and the byte after it. */
  function FirstPass(s: seq<byte>): nat
    decreases |s|
  {
    if Peek(s) == NUL || s[0] == QUOTE then 0
    else if s[0] == BACKSLASH then 1 + (if |s| > 1 then FirstPass(s[2..]) else 0)
    else 1 + FirstPass(s[1..])
  }

  lemma FirstPassPlain(s: seq<byte>)
    requires s != [] && s[0] != NUL && s[0] != QUOTE && s[0] != BACKSLASH
    ensures FirstPass(s) == 1 + FirstPass(s[1..])
  {
  }

  lemma FirstPassHex(s: seq<byte>)
    requires IsHex4(s)
    ensures FirstPass(s) == 4 + FirstPass(s[4..])
  {
    FirstPassPlain(s);
    FirstPassPlain(s[1..]);
    FirstPassPlain(s[2..]);
    FirstPassPlain(s[3..]);
    assert s[1..][1..] == s[2..] && s[2..][1..] == s[3..] && s[3..][1..] == s[4..];
  }

  /** An escape never emits more bytes than the first pass counted for it. */
  lemma UnicodeFits(s: seq<byte>)
    requires Unicode(s).Ok?
    ensures |Unicode(s).value| + FirstPass(Unicode(s).rest) <= FirstPass(s)
  {
    FirstPassHex(s);
    var uc := Hex4(s);
    if 0xD800 <= uc <= 0xDBFF && Peek(s[4..]) == BACKSLASH && Peek(s[5..]) == 'u' as int {
      var t := s[4..];
      FirstPassHex(s[6..]);
      assert t[2..] == s[6..] && s[6..][4..] == s[10..] && |t| > 1;
      assert FirstPass(t) == 1 + FirstPass(t[2..]);
    }
  }

  /** The decoded string always fits the buffer sized by the first pass. */
  lemma {:induction false} UnescapeFits(s: seq<byte>)
    requires Unescape(s).Ok?
    ensures |Unescape(s).value| <= FirstPass(s)
    decreases |s|
  {
    if Peek(s) == NUL || s[0] == QUOTE {
    } else if s[0] != BACKSLASH {
      UnescapeFits(s[1..]);
    } else if s[1] != 'u' as int {
      UnescapeFits(s[2..]);
    } else {
      UnicodeFits(s[2..]);
      UnescapeFits(Unicode(s[2..]).rest);
    }
  }
}
