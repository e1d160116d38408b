/**
 JSON texts by the grammar of RFC 8259, written out byte by byte, with blanks wherever the grammar has them, and the
 proof that the parser takes each for the value it stands for. Nothing here is said through the parser's functions:
 words, escapes, digits and punctuation are literals.
 */
module JsonText {
  import opened Bytes
  import opened Decimal
  import opened JsonSpec
  import opened JsonUnicode
  import opened JsonRoundTrip

  // ----- Four hexadecimal digits -----

  /** The digit for a value below 16, in upper or lower case. */
  function HexOf(v: int, upper: bool): byte
    requires 0 <= v < 16
  {
    if v < 10 then '0' as int + v else if upper then 'A' as int + (v - 10) else 'a' as int + (v - 10)
  }

  /** Which of the four digits are in upper case, should they be letters. */
  datatype Case = Case(a: bool, b: bool, c: bool, d: bool)

  /** A 16-bit unit, its highest digit first. */
  function Spell(n: int, k: Case): (s: seq<byte>)
    requires 0 <= n < 0x10000
    ensures |s| == 4
  {
    var n1 := n / 16;
    var n2 := n1 / 16;
    [HexOf(n2 / 16, k.a), HexOf(n2 % 16, k.b), HexOf(n1 % 16, k.c), HexOf(n % 16, k.d)]
  }

  lemma HexDigitIs(v: int, upper: bool)
    requires 0 <= v < 16
    ensures IsHex(HexOf(v, upper)) && HexDigit(HexOf(v, upper)) == v
  {
  }

  lemma SpellReads(n: int, k: Case, t: seq<byte>)
    requires 0 <= n < 0x10000
    ensures IsHex4(Spell(n, k) + t) && Hex4(Spell(n, k) + t) == n && (Spell(n, k) + t)[4..] == t
  {
    hide HexDigit, HexOf, IsHex;
    var n1 := n / 16;
    var n2 := n1 / 16;
    HexDigitIs(n2 / 16, k.a);
    HexDigitIs(n2 % 16, k.b);
    HexDigitIs(n1 % 16, k.c);
    HexDigitIs(n % 16, k.d);
    assert n == 16 * n1 + n % 16 && n1 == 16 * n2 + n1 % 16 && n2 == 16 * (n2 / 16) + n2 % 16;
  }

  predicate IsHigh(n: int) { 0xD800 <= n <= 0xDBFF }

  predicate IsLow(n: int) { 0xDC00 <= n <= 0xDFFF }

  /** Every spelling of a unit that is a character yields the well-formed UTF-8 of that character. */
  lemma EscapeYields(n: int, k: Case, t: seq<byte>)
    requires 0 < n < 0x10000 && !IsHigh(n) && !IsLow(n)
    ensures var p := Unicode(Spell(n, k) + t);
      p.Ok? && p.rest == t && WellFormed(p.value) && CodePoint(p.value) == n
  {
    hide Hex4, Utf8, WellFormed, CodePoint;
    SpellReads(n, k, t);
    Utf8IsStandard(n);
  }

  /** Every spelling of a pair yields well-formed UTF-8: of its character, or of the one 0x10000 below if bit 0x40 of the high unit is set. */
  lemma PairYields(high: int, low: int, k: Case, k': Case, t: seq<byte>)
    requires IsHigh(high) && IsLow(low)
    ensures var p := Unicode(Spell(high, k) + ['\\' as int, 'u' as int] + Spell(low, k') + t);
      p.Ok? && p.rest == t && WellFormed(p.value)
      && CodePoint(p.value) == if (high / 0x40) % 2 == 0 then Combine(high, low) else Combine(high, low) - 0x10000
  {
    hide Hex4, Utf8, WellFormed, CodePoint, Spell;
    var u := ['\\' as int, 'u' as int] + Spell(low, k') + t;
    var s := Spell(high, k) + ['\\' as int, 'u' as int] + Spell(low, k') + t;
    PairSplit(high, k, u, low, k', t);
    PairIsStandard(high, low);
    PairIsScalar(high, low);
    Utf8IsStandard(PairCode(high, low));
  }

  /** The high unit, the low unit behind it, and what follows both. */
  lemma PairSplit(high: int, k: Case, u: seq<byte>, low: int, k': Case, t: seq<byte>)
    requires 0 <= high < 0x10000 && 0 <= low < 0x10000
    requires u == ['\\' as int, 'u' as int] + Spell(low, k') + t
    ensures var s := Spell(high, k) + ['\\' as int, 'u' as int] + Spell(low, k') + t;
      && IsHex4(s) && Hex4(s) == high && |s| >= 10 && s[4..] == u && Peek(s[4..]) == '\\' as int && Peek(s[5..]) == 'u' as int
      && IsHex4(s[6..]) && Hex4(s[6..]) == low && s[10..] == t
  {
    hide Hex4, IsHex4, Spell;
    var s := Spell(high, k) + ['\\' as int, 'u' as int] + Spell(low, k') + t;
    SpellReads(high, k, u);
    SpellReads(low, k', t);
    assert s == Spell(high, k) + u;
    assert s[4..] == u && s[5..] == u[1..] && u[1..][0] == 'u' as int;
    assert s[6..] == Spell(low, k') + t;
  }

  /** A unit that is no character on its own yields nothing: a NUL, a low unit, or a high one with another unit behind it. */
  lemma NothingYields(n: int, k: Case, t: seq<byte>)
    requires n == 0 || IsLow(n)
    ensures Unicode(Spell(n, k) + t) == Ok([], t)
  {
    hide Hex4, Spell;
    SpellReads(n, k, t);
  }

  lemma HighYields(high: int, k: Case, t: seq<byte>)
    requires IsHigh(high)
    ensures !(['\\' as int, 'u' as int] <= t) ==> Unicode(Spell(high, k) + t) == Ok([], t)
    ensures forall n, k' :: 0 <= n < 0x10000 && !IsLow(n) ==>
      Unicode(Spell(high, k) + ['\\' as int, 'u' as int] + Spell(n, k') + t) == Ok([], t)
  {
    hide Hex4, Spell;
    SpellReads(high, k, t);
    var s := Spell(high, k) + t;
    if t != [] {
      assert s[5..] == t[1..];
      assert t[0] == '\\' as int && Peek(t[1..]) == 'u' as int ==> ['\\' as int, 'u' as int] <= t;
    }
    forall n, k' | 0 <= n < 0x10000 && !IsLow(n)
      ensures Unicode(Spell(high, k) + ['\\' as int, 'u' as int] + Spell(n, k') + t) == Ok([], t)
    {
      PairSplit(high, k, ['\\' as int, 'u' as int] + Spell(n, k') + t, n, k', t);
    }
  }

  // ----- Strings -----

  /**
   A character of a string as it is written. Unit and Pair are \u escapes; a unit is no half of a pair, but Low, a low
   half that stands alone, and Dropped, a high half with no low half behind it, are accepted too.
   */
  datatype Char =
    | Plain(b: byte)
    | Short(letter: byte)
    | Unit(n: int, k: Case)
    | Pair(high: int, low: int, k: Case, k': Case)
    | Low(low: int, k: Case)
    | Dropped(high: int, n: int, k: Case, k': Case)

  predicate CharOk(c: Char) {
    match c
    case Plain(b) => b != 0 && b != '\"' as int && b != '\\' as int
    case Short(letter) =>
      letter in {'\"' as int, '\\' as int, '/' as int, 'b' as int, 'f' as int, 'n' as int, 'r' as int, 't' as int}
    case Unit(n, _) => 0 <= n < 0x10000 && !IsHigh(n) && !IsLow(n)
    case Pair(high, low, _, _) => IsHigh(high) && IsLow(low)
    case Low(low, _) => IsLow(low)
    case Dropped(high, n, _, _) => IsHigh(high) && 0 <= n < 0x10000 && !IsLow(n)
  }

  function WriteChar(c: Char): seq<byte>
    requires CharOk(c)
  {
    match c
    case Plain(b) => [b]
    case Short(letter) => ['\\' as int, letter]
    case Unit(n, k) => ['\\' as int, 'u' as int] + Spell(n, k)
    case Pair(high, low, k, k') => ['\\' as int, 'u' as int] + (Spell(high, k) + ['\\' as int, 'u' as int] + Spell(low, k'))
    case Low(low, k) => ['\\' as int, 'u' as int] + Spell(low, k)
    case Dropped(high, n, k, k') => ['\\' as int, 'u' as int] + (Spell(high, k) + ['\\' as int, 'u' as int] + Spell(n, k'))
  }

  /** What a character stands for: itself, a control character, or the UTF-8 of an escape. */
  function CharBytes(c: Char): seq<byte>
    requires CharOk(c)
  {
    match c
    case Plain(b) => [b]
    case Short(letter) =>
      [if letter == 'b' as int then 8
       else if letter == 't' as int then 9
       else if letter == 'n' as int then 10
       else if letter == 'f' as int then 12
       else if letter == 'r' as int then 13
       else letter]
    case Unit(n, _) => if n == 0 then [] else Utf8(n)
    case Pair(high, low, _, _) =>
      PairIsScalar(high, low);
      PairIsStandard(high, low);
      Utf8(if (high / 0x40) % 2 == 0 then Combine(high, low) else Combine(high, low) - 0x10000)
    case Low(_, _) => []
    case Dropped(_, _, _, _) => []
  }

  ghost predicate CharsOk(cs: seq<Char>) {
    forall i :: 0 <= i < |cs| ==> CharOk(cs[i])
  }

  ghost function WriteChars(cs: seq<Char>): seq<byte>
    requires CharsOk(cs)
  {
    if cs == [] then [] else WriteChar(cs[0]) + WriteChars(cs[1..])
  }

  ghost function CharsBytes(cs: seq<Char>): seq<byte>
    requires CharsOk(cs)
  {
    if cs == [] then [] else CharBytes(cs[0]) + CharsBytes(cs[1..])
  }

  /** After a backslash and a u, what a \u escape yields comes first. */
  lemma UnicodeFirst(u: seq<byte>)
    requires Unicode(u).Ok?
    ensures Unescape(['\\' as int, 'u' as int] + u) == Prefix(Unicode(u).value, Unescape(Unicode(u).rest))
  {
    hide Unicode;
    var s := ['\\' as int, 'u' as int] + u;
    assert s[1..][0] == 'u' as int && s[2..] == u;
  }

  lemma UnitOfReads(n: int, k: Case, t: seq<byte>)
    requires 0 <= n < 0x10000 && !IsHigh(n)
    ensures Unicode(Spell(n, k) + t) == Ok(if n == 0 || IsLow(n) then [] else Utf8(n), t)
  {
    hide Hex4, Utf8, Spell;
    SpellReads(n, k, t);
  }

  lemma PairOfReads(high: int, low: int, k: Case, k': Case, t: seq<byte>)
    requires IsHigh(high) && IsLow(low)
    ensures Unicode(Spell(high, k) + ['\\' as int, 'u' as int] + Spell(low, k') + t) == Ok(Utf8(PairCode(high, low)), t)
  {
    hide Hex4, Utf8, PairCode, Spell;
    PairSplit(high, k, ['\\' as int, 'u' as int] + Spell(low, k') + t, low, k', t);
  }

  /** What a \u escape yields, in a string. */
  lemma UnicodeReads(c: Char, u: seq<byte>, t: seq<byte>)
    requires CharOk(c) && WriteChar(c) + t == ['\\' as int, 'u' as int] + u && Unicode(u) == Ok(CharBytes(c), t)
    ensures Unescape(WriteChar(c) + t) == Prefix(CharBytes(c), Unescape(t))
  {
    hide Unescape, Unicode, Prefix, WriteChar, CharBytes;
    UnicodeFirst(u);
  }

  lemma PairCharReads(c: Char, t: seq<byte>)
    requires CharOk(c) && c.Pair?
    ensures Unescape(WriteChar(c) + t) == Prefix(CharBytes(c), Unescape(t))
  {
    hide Unescape, Unicode, Prefix, Spell, Utf8, PairCode, Combine;
    var u := Spell(c.high, c.k) + ['\\' as int, 'u' as int] + Spell(c.low, c.k') + t;
    PairOfReads(c.high, c.low, c.k, c.k', t);
    PairIsStandard(c.high, c.low);
    assert WriteChar(c) + t == ['\\' as int, 'u' as int] + u;
    UnicodeReads(c, u, t);
  }

  lemma DroppedReads(c: Char, t: seq<byte>)
    requires CharOk(c) && c.Dropped?
    ensures Unescape(WriteChar(c) + t) == Prefix(CharBytes(c), Unescape(t))
  {
    hide Unescape, Unicode, Prefix, Spell;
    var u := Spell(c.high, c.k) + ['\\' as int, 'u' as int] + Spell(c.n, c.k') + t;
    HighYields(c.high, c.k, t);
    assert WriteChar(c) + t == ['\\' as int, 'u' as int] + u;
    UnicodeReads(c, u, t);
  }

  lemma UnitCharReads(c: Char, n: int, k: Case, t: seq<byte>)
    requires CharOk(c) && (c == Unit(n, k) || c == Low(n, k))
    ensures Unescape(WriteChar(c) + t) == Prefix(CharBytes(c), Unescape(t))
  {
    hide Unescape, Unicode, Prefix, Spell, Utf8;
    UnitOfReads(n, k, t);
    assert WriteChar(c) + t == ['\\' as int, 'u' as int] + (Spell(n, k) + t);
    UnicodeReads(c, Spell(n, k) + t, t);
  }

  /** A character is read as what it stands for, before what follows it. */
  lemma CharReads(c: Char, t: seq<byte>)
    requires CharOk(c)
    ensures Unescape(WriteChar(c) + t) == Prefix(CharBytes(c), Unescape(t))
  {
    hide Unescape, Unicode, Prefix, Spell, Utf8;
    match c
    case Plain(b) => PlainByteReads(b, t);
    case Short(letter) => ShortCharReads(letter, t);
    case Unit(n, k) => UnitCharReads(c, n, k, t);
    case Pair(_, _, _, _) => PairCharReads(c, t);
    case Low(low, k) => UnitCharReads(c, low, k, t);
    case Dropped(_, _, _, _) => DroppedReads(c, t);
  }

  lemma ShortCharReads(letter: byte, t: seq<byte>)
    requires CharOk(Short(letter))
    ensures Unescape(WriteChar(Short(letter)) + t) == Prefix(CharBytes(Short(letter)), Unescape(t))
  {
    hide Unescape, Prefix;
    ShortEscapeReads(letter, t);
  }

  lemma {:induction false} CharsRead(cs: seq<Char>, t: seq<byte>)
    requires CharsOk(cs)
    ensures Unescape(WriteChars(cs) + ['\"' as int] + t) == Ok(CharsBytes(cs), t)
  {
    hide WriteChar, CharBytes, CharOk;
    if cs == [] {
      assert (WriteChars(cs) + ['\"' as int] + t)[1..] == t;
    } else {
      hide Unescape;
      var rest := WriteChars(cs[1..]) + ['\"' as int] + t;
      assert WriteChars(cs) + ['\"' as int] + t == WriteChar(cs[0]) + rest;
      CharReads(cs[0], rest);
      CharsRead(cs[1..], t);
    }
  }

  ghost function WriteString(cs: seq<Char>): seq<byte>
    requires CharsOk(cs)
  {
    ['\"' as int] + WriteChars(cs) + ['\"' as int]
  }

  /** A string is read as the bytes it stands for, up to its closing quote. */
  lemma StringTextReads(cs: seq<Char>, t: seq<byte>)
    requires CharsOk(cs)
    ensures ParseString(WriteString(cs) + t) == Ok(CharsBytes(cs), t)
  {
    hide Unescape, WriteChars, CharsBytes;
    CharsRead(cs, t);
    assert (WriteString(cs) + t)[1..] == WriteChars(cs) + ['\"' as int] + t;
  }

  /** Bytes set aside for a character: one, or one for a backslash and its letter and one for each digit. */
  function CharRoom(c: Char): nat {
    match c
    case Plain(_) => 1
    case Short(_) => 1
    case Unit(_, _) => 5
    case Low(_, _) => 5
    case Pair(_, _, _, _) => 10
    case Dropped(_, _, _, _) => 10
  }

  function CharsRoom(cs: seq<Char>): nat {
    if cs == [] then 0 else CharRoom(cs[0]) + CharsRoom(cs[1..])
  }

  lemma UnitRoom(n: int, k: Case, t: seq<byte>)
    requires 0 <= n < 0x10000
    ensures FirstPass(['\\' as int, 'u' as int] + (Spell(n, k) + t)) == 5 + FirstPass(t)
  {
    hide Spell, IsHex4;
    SpellReads(n, k, t);
    FirstPassHex(Spell(n, k) + t);
    var s := ['\\' as int, 'u' as int] + (Spell(n, k) + t);
    assert s[2..] == Spell(n, k) + t;
  }

  lemma CharRoomIs(c: Char, t: seq<byte>)
    requires CharOk(c)
    ensures FirstPass(WriteChar(c) + t) == CharRoom(c) + FirstPass(t)
  {
    hide Spell, FirstPass;
    match c
    case Plain(b) => OneRoom([b], t);
    case Short(letter) => OneRoom(['\\' as int, letter], t);
    case Unit(n, k) => UnitRoom(n, k, t);
      assert WriteChar(c) + t == ['\\' as int, 'u' as int] + (Spell(n, k) + t);
    case Low(n, k) => UnitRoom(n, k, t);
      assert WriteChar(c) + t == ['\\' as int, 'u' as int] + (Spell(n, k) + t);
    case Pair(high, low, k, k') => PairRoom(high, low, k, k', t);
    case Dropped(high, n, k, k') => PairRoom(high, n, k, k', t);
  }

  lemma OneRoom(text: seq<byte>, t: seq<byte>)
    requires text != [] && text[0] != 0 && text[0] != '\"' as int
    requires |text| == if text[0] == '\\' as int then 2 else 1
    ensures FirstPass(text + t) == 1 + FirstPass(t)
  {
    var s := text + t;
    assert s[|text|..] == t;
  }

  lemma PairRoom(high: int, n: int, k: Case, k': Case, t: seq<byte>)
    requires 0 <= high < 0x10000 && 0 <= n < 0x10000
    ensures FirstPass(['\\' as int, 'u' as int] + (Spell(high, k) + ['\\' as int, 'u' as int] + Spell(n, k')) + t) == 10 + FirstPass(t)
  {
    hide Spell, FirstPass;
    var u := ['\\' as int, 'u' as int] + (Spell(n, k') + t);
    UnitRoom(n, k', t);
    UnitRoom(high, k, u);
    assert ['\\' as int, 'u' as int] + (Spell(high, k) + ['\\' as int, 'u' as int] + Spell(n, k')) + t
        == ['\\' as int, 'u' as int] + (Spell(high, k) + u);
  }

  /** What the first pass sets aside for a string. */
  lemma {:induction false} CharsRoomIs(cs: seq<Char>, t: seq<byte>)
    requires CharsOk(cs)
    ensures FirstPass(WriteChars(cs) + ['\"' as int] + t) == CharsRoom(cs)
  {
    hide WriteChar, CharRoom, CharOk;
    if cs == [] {
      assert (WriteChars(cs) + ['\"' as int] + t)[0] == '\"' as int;
    } else {
      hide FirstPass;
      var rest := WriteChars(cs[1..]) + ['\"' as int] + t;
      assert WriteChars(cs) + ['\"' as int] + t == WriteChar(cs[0]) + rest;
      CharRoomIs(cs[0], rest);
      CharsRoomIs(cs[1..], t);
    }
  }

  // ----- Numbers -----

  datatype Exp = NoExp | Exp(upper: bool, sign: ExpSign, digits: seq<byte>)

  datatype ExpSign = NoSign | Plus | Minus

  /** A number: an integer without leading zeros, a fraction of some digits, if any, and an exponent, if any. */
  datatype Numb = Numb(minus: bool, whole: nat, frac: seq<byte>, exp: Exp)

  ghost predicate NumbOk(x: Numb) {
    AllDigits(x.frac) && (x.exp.Exp? ==> x.exp.digits != [] && AllDigits(x.exp.digits))
  }

  function WriteFrac(frac: seq<byte>): seq<byte> {
    if frac == [] then [] else ['.' as int] + frac
  }

  function WriteExp(e: Exp): seq<byte> {
    if e.NoExp? then []
    else
      [if e.upper then 'E' as int else 'e' as int] + SignText(e.sign) + e.digits
  }

  function WriteNumb(x: Numb): seq<byte> {
    (if x.minus then ['-' as int] else []) + Numeral(x.whole) + WriteFrac(x.frac) + WriteExp(x.exp)
  }

  /** The value of some digits, the last one counting one. */
  function Value(digits: seq<byte>): int {
    if digits == [] then 0 else 10 * Value(digits[..|digits| - 1]) + digits[|digits| - 1] - '0' as int
  }

  function ExpValue(e: Exp): int {
    if e.NoExp? then 0 else if e.sign.Minus? then -Value(e.digits) else Value(e.digits)
  }

  /** mantissa * 10^scale: the digits of the fraction count tenths and less. */
  function NumbValue(x: Numb): Json {
    var m := x.whole * Pow10(|x.frac|) + Value(x.frac);
    Json.Number(if x.minus then -m else m, ExpValue(x.exp) - |x.frac|)
  }

  lemma {:induction false} ScanValue(digits: seq<byte>, v: int)
    ensures Scan(digits, v) == v * Pow10(|digits|) + Value(digits)
  {
    if digits != [] {
      var n := |digits| - 1;
      var front, d := digits[..n], digits[n];
      assert digits == front + [d];
      ScanValue(front, v);
      ScanAppend(front, d, v);
      assert Pow10(n + 1) == 10 * Pow10(n);
      assert v * (10 * Pow10(n)) == 10 * (v * Pow10(n));
    }
  }

  lemma {:induction false} DigitRunEnds(s: seq<byte>, t: seq<byte>)
    requires AllDigits(s) && !IsDigit(Peek(t))
    ensures DigitRun(s + t) == |s|
    decreases |s|
  {
    if s == [] {
      assert s + t == t;
    } else {
      assert (s + t)[1..] == s[1..] + t;
      DigitRunEnds(s[1..], t);
    }
  }

  lemma WholeReads(n: nat, t: seq<byte>)
    requires !IsDigit(Peek(t))
    ensures IntegerPart(Numeral(n) + t) == (n, t)
  {
    NumeralDigits(n);
    ScanNumeral(n);
    DigitRunEnds(Numeral(n), t);
    var s := Numeral(n) + t;
    assert s[..|Numeral(n)|] == Numeral(n) && s[|Numeral(n)|..] == t;
    if n == 0 {
      assert s[1..] == t;
    }
  }

  lemma FracReads(n: int, frac: seq<byte>, t: seq<byte>)
    requires AllDigits(frac) && !IsDigit(Peek(t)) && (frac == [] ==> Peek(t) != '.' as int)
    ensures Fraction(n, WriteFrac(frac) + t) == (Scan(frac, n), -|frac|, t)
  {
    hide Scan, DigitRun, Fraction;
    var s := WriteFrac(frac) + t;
    if frac == [] {
      assert s == t;
      NoFraction(n, t);
    } else {
      DigitRunEnds(frac, t);
      SplitAt('.' as int, frac, t);
      assert IsDigit(frac[0]);
      hide AllDigits;
      assert s == ['.' as int] + (frac + t);
      PointReads(n, s, |frac|);
    }
  }

  lemma NoFraction(n: int, t: seq<byte>)
    requires Peek(t) != '.' as int
    ensures Fraction(n, t) == (Scan([], n), 0, t)
  {
  }

  lemma PointReads(n: int, s: seq<byte>, k: nat)
    requires Peek(s) == '.' as int && IsDigit(Peek(s[1..])) && DigitRun(s[1..]) == k && k <= |s| - 1
    ensures Fraction(n, s) == (Scan(s[1..][..k], n), 0 - k, s[1..][k..])
  {
    hide Scan, DigitRun;
  }

  lemma SplitAt(b: byte, front: seq<byte>, t: seq<byte>)
    requires front != []
    ensures var s := [b] + (front + t);
      s[1..] == front + t && s[1..][0] == front[0] && s[1..][..|front|] == front && s[1..][|front|..] == t
  {
  }

  function SignText(sign: ExpSign): seq<byte> {
    match sign
    case NoSign => []
    case Plus => ['+' as int]
    case Minus => ['-' as int]
  }

  lemma UnsignedReads(letter: byte, digits: seq<byte>, t: seq<byte>)
    requires letter == 'e' as int || letter == 'E' as int
    requires digits != [] && AllDigits(digits) && !IsDigit(Peek(t))
    ensures Exponent([letter] + (digits + t)) == (Scan(digits, 0), t)
  {
    hide Scan, DigitRun;
    DigitRunEnds(digits, t);
    SplitAt(letter, digits, t);
    assert IsDigit(digits[0]);
  }

  lemma SignedReads(letter: byte, minus: bool, digits: seq<byte>, t: seq<byte>)
    requires letter == 'e' as int || letter == 'E' as int
    requires digits != [] && AllDigits(digits) && !IsDigit(Peek(t))
    ensures Exponent([letter] + ([if minus then '-' as int else '+' as int] + (digits + t)))
      == (if minus then -Scan(digits, 0) else Scan(digits, 0), t)
  {
    hide Scan, DigitRun;
    DigitRunEnds(digits, t);
    var sign: byte := if minus then '-' as int else '+' as int;
    SplitAt(sign, digits, t);
    assert ([letter] + ([sign] + (digits + t)))[1..] == [sign] + (digits + t);
  }

  lemma ExpParts(e: Exp, letter: byte, t: seq<byte>)
    requires e.Exp? && letter == if e.upper then 'E' as int else 'e' as int
    ensures WriteExp(e) + t == [letter] + (SignText(e.sign) + (e.digits + t))
  {
    hide SignText;
    var sign := SignText(e.sign);
    assert [letter] + sign + e.digits + t == [letter] + (sign + (e.digits + t));
  }

  lemma ExpReads(e: Exp, t: seq<byte>)
    requires !IsDigit(Peek(t)) && (e.Exp? ==> e.digits != [] && AllDigits(e.digits))
    requires e.NoExp? ==> Peek(t) != 'e' as int && Peek(t) != 'E' as int
    ensures Exponent(WriteExp(e) + t) ==
      (if e.NoExp? then 0 else if e.sign.Minus? then -Scan(e.digits, 0) else Scan(e.digits, 0), t)
  {
    hide Exponent, Scan, WriteExp;
    if e.NoExp? {
      NoExpReads(t);
    } else {
      var letter: byte := if e.upper then 'E' as int else 'e' as int;
      ExpParts(e, letter, t);
      NoSignText(e.digits + t);
      if e.sign.NoSign? {
        UnsignedReads(letter, e.digits, t);
      } else {
        SignedReads(letter, e.sign.Minus?, e.digits, t);
      }
    }
  }

  lemma NoExpReads(t: seq<byte>)
    requires Peek(t) != 'e' as int && Peek(t) != 'E' as int
    ensures Exponent(WriteExp(NoExp) + t) == (0, t)
  {
    assert WriteExp(NoExp) + t == t;
  }

  lemma NoSignText(s: seq<byte>)
    ensures SignText(NoSign) + s == s
  {
  }

  lemma PartsStop(x: Numb, t: seq<byte>)
    requires NumbOk(x) && Stops(t)
    ensures var e := WriteExp(x.exp) + t;
      && !IsDigit(Peek(e)) && Peek(e) != '.' as int && !IsDigit(Peek(WriteFrac(x.frac) + e))
  {
  }

  /** A number is read as its value, if what follows does not continue it. */
  lemma NumbReads(x: Numb, t: seq<byte>)
    requires NumbOk(x) && Stops(t)
    ensures ParseNumber(WriteNumb(x) + t) == Ok(NumbValue(x), t) && StartsNumber(Peek(WriteNumb(x) + t))
  {
    hide IntegerPart, Fraction, Exponent, Numeral, Value, Pow10, Scan, WriteFrac, WriteExp;
    var e := WriteExp(x.exp) + t;
    var f := WriteFrac(x.frac) + e;
    var w := Numeral(x.whole) + f;
    FirstDigit(x.whole, f);
    PartsStop(x, t);
    WholeReads(x.whole, f);
    FracReads(x.whole, x.frac, e);
    ExpReads(x.exp, t);
    ScanValue(x.frac, x.whole);
    if x.exp.Exp? {
      ScanValue(x.exp.digits, 0);
    }
    var s := WriteNumb(x) + t;
    assert s == (if x.minus then ['-' as int] else []) + w;
    if x.minus {
      assert s[1..] == w;
    } else {
      assert s == w;
    }
  }

  // ----- Values -----

  /** A text, with the blanks the grammar allows: in an empty array or object, and around each item, key and value. */
  datatype Text =
    | NullText
    | FalseText
    | TrueText
    | NumberText(x: Numb)
    | StringText(cs: seq<Char>)
    | ArrayText(blank: seq<byte>, items: seq<Item>)
    | ObjectText(blank: seq<byte>, entries: seq<Entry>)

  datatype Item = Item(before: seq<byte>, value: Text, after: seq<byte>)

  datatype Entry = Entry(before: seq<byte>, key: seq<Char>, mid: seq<byte>, mid': seq<byte>, value: Text, after: seq<byte>)

  ghost predicate TextOk(x: Text)
    decreases x
  {
    match x
    case NumberText(n) => NumbOk(n)
    case StringText(cs) => CharsOk(cs)
    case ArrayText(blank, items) => Blank(blank) && forall i :: 0 <= i < |items| ==> ItemOk(items[i])
    case ObjectText(blank, entries) => Blank(blank) && forall i :: 0 <= i < |entries| ==> EntryOk(entries[i])
    case _ => true
  }

  ghost predicate ItemOk(i: Item)
    decreases i
  {
    Blank(i.before) && TextOk(i.value) && Blank(i.after)
  }

  ghost predicate EntryOk(e: Entry)
    decreases e
  {
    Blank(e.before) && CharsOk(e.key) && Blank(e.mid) && Blank(e.mid') && TextOk(e.value) && Blank(e.after)
  }

  ghost function Write(x: Text): seq<byte>
    requires TextOk(x)
    decreases x, 0
  {
    match x
    case NullText => ['n' as int, 'u' as int, 'l' as int, 'l' as int]
    case FalseText => ['f' as int, 'a' as int, 'l' as int, 's' as int, 'e' as int]
    case TrueText => ['t' as int, 'r' as int, 'u' as int, 'e' as int]
    case NumberText(n) => WriteNumb(n)
    case StringText(cs) => WriteString(cs)
    case ArrayText(blank, items) => ['[' as int] + (if items == [] then blank else WriteItems(items)) + [']' as int]
    case ObjectText(blank, entries) => ['{' as int] + (if entries == [] then blank else WriteEntries(entries)) + ['}' as int]
  }

  ghost function WriteItem(i: Item): seq<byte>
    requires ItemOk(i)
    decreases i, 1
  {
    i.before + (Write(i.value) + i.after)
  }

  ghost function WriteItems(items: seq<Item>): seq<byte>
    requires items != [] && forall i :: 0 <= i < |items| ==> ItemOk(items[i])
    decreases items, 2
  {
    WriteItem(items[0]) + if |items| == 1 then [] else [',' as int] + WriteItems(items[1..])
  }

  ghost function WriteEntry(e: Entry): seq<byte>
    requires EntryOk(e)
    decreases e, 1
  {
    e.before + (WriteString(e.key) + (e.mid + ([':' as int] + (e.mid' + (Write(e.value) + e.after)))))
  }

  ghost function WriteEntries(entries: seq<Entry>): seq<byte>
    requires entries != [] && forall i :: 0 <= i < |entries| ==> EntryOk(entries[i])
    decreases entries, 2
  {
    WriteEntry(entries[0]) + if |entries| == 1 then [] else [',' as int] + WriteEntries(entries[1..])
  }

  ghost function Meaning(x: Text): Json
    requires TextOk(x)
    decreases x, 0
  {
    match x
    case NullText => Null
    case FalseText => False
    case TrueText => True
    case NumberText(n) => NumbValue(n)
    case StringText(cs) => String(CharsBytes(cs))
    case ArrayText(_, items) => Array(ItemValues(items))
    case ObjectText(_, entries) => Object(EntryValues(entries))
  }

  ghost function ItemValues(items: seq<Item>): seq<Json>
    requires forall i :: 0 <= i < |items| ==> ItemOk(items[i])
    decreases items, 2
  {
    if items == [] then []
    else
      assert ItemOk(items[0]);
      [Meaning(items[0].value)] + ItemValues(items[1..])
  }

  ghost function EntryValues(entries: seq<Entry>): seq<Member>
    requires forall i :: 0 <= i < |entries| ==> EntryOk(entries[i])
    decreases entries, 2
  {
    if entries == [] then []
    else
      assert EntryOk(entries[0]);
      [Member(CharsBytes(entries[0].key), Meaning(entries[0].value))] + EntryValues(entries[1..])
  }

  /** The first byte of a text is no blank and closes nothing. */
  lemma FirstOf(x: Text)
    requires TextOk(x)
    ensures Write(x) != [] && Write(x)[0] > 32 && Write(x)[0] != ']' as int && Write(x)[0] != '}' as int
  {
    hide WriteItems, WriteEntries, WriteChars;
    if x.NumberText? {
      NumeralDigits(x.x.whole);
    }
  }

  /** Blanks and then punctuation: skipped up to there, and no number goes on. */
  lemma BlankStops(w: seq<byte>, p: byte, t: seq<byte>)
    requires Blank(w) && p in {',' as int, ']' as int, '}' as int, ':' as int}
    ensures Skip(w + ([p] + t)) == [p] + t && Stops(w + ([p] + t))
  {
    SkipBlank(w, [p] + t);
    SkipNone([p] + t);
  }

  lemma NumberTextReads(x: Numb, t: seq<byte>)
    requires NumbOk(x) && Stops(t)
    ensures ParseValue(WriteNumb(x) + t) == Ok(NumbValue(x), t)
  {
    hide WriteNumb, NumbValue, ParseString, ParseNumber, ParseArray, ParseObject, Stops;
    NumbReads(x, t);
  }

  lemma StringValueReads(cs: seq<Char>, t: seq<byte>)
    requires CharsOk(cs)
    ensures ParseValue(WriteString(cs) + t) == Ok(String(CharsBytes(cs)), t)
  {
    hide WriteChars, CharsBytes, ParseString, ParseNumber, ParseArray, ParseObject;
    assert (WriteString(cs) + t)[0] == '\"' as int;
    StringTextReads(cs, t);
  }

  lemma WordReads(x: Text, t: seq<byte>)
    requires x.NullText? || x.FalseText? || x.TrueText?
    ensures ParseValue(Write(x) + t) == Ok(Meaning(x), t)
  {
    hide ParseValue;
    LiteralReads(NULL_TEXT, t);
    LiteralReads(FALSE_TEXT, t);
    LiteralReads(TRUE_TEXT, t);
  }

  /**
   Every text of the grammar is read as the value it stands for, and the reading stops right behind it, whatever
   follows that does not continue a number.
   */
  lemma {:induction false} TextReads(x: Text, t: seq<byte>)
    requires TextOk(x) && Stops(t)
    ensures ParseValue(Write(x) + t) == Ok(Meaning(x), t)
    decreases x, 0
  {
    hide ParseValue, WriteNumb, NumbValue, WriteString, WriteItems, WriteEntries, Stops, Blank;
    match x
    case NumberText(n) => NumberTextReads(n, t);
    case StringText(cs) => StringValueReads(cs, t);
    case ArrayText(blank, items) => ArrayTextReads(blank, items, t);
    case ObjectText(blank, entries) => ObjectTextReads(blank, entries, t);
    case _ => WordReads(x, t);
  }

  lemma EmptyArrayReads(blank: seq<byte>, t: seq<byte>)
    requires Blank(blank)
    ensures ParseValue(['[' as int] + blank + [']' as int] + t) == Ok(Array([]), t)
  {
    hide ParseValue, Skip, ParseItems;
    var s := ['[' as int] + blank + [']' as int] + t;
    BracketReads(s);
    assert s[1..] == blank + ([']' as int] + t);
    BlankStops(blank, ']' as int, t);
    assert ([']' as int] + t)[1..] == t;
  }

  lemma {:induction false} ArrayTextReads(blank: seq<byte>, items: seq<Item>, t: seq<byte>)
    requires TextOk(ArrayText(blank, items))
    ensures ParseValue(Write(ArrayText(blank, items)) + t) == Ok(Meaning(ArrayText(blank, items)), t)
    decreases items, 4
  {
    hide ParseValue, ParseItems, WriteItems, WriteItem, Skip, Blank, ItemOk, ItemValues;
    if items == [] {
      EmptyArrayReads(blank, t);
      assert ItemValues([]) == [] by { NoItemValues(); }
    } else {
      var s, u := Write(ArrayText(blank, items)) + t, WriteItems(items) + ([']' as int] + t);
      BracketReads(s);
      assert s[1..] == u;
      ItemsStart(items, [']' as int] + t);
      ItemTextsRead(items, t);
      assert ParseArray(s) == Ok(Array(ItemValues(items)), t);
    }
  }

  lemma NoItemValues()
    ensures ItemValues([]) == [] && EntryValues([]) == []
  {
  }

  /** Items start, after blanks, with a byte that closes nothing, and skipping blanks before them changes nothing. */
  lemma ItemsStart(items: seq<Item>, t: seq<byte>)
    requires items != [] && forall i :: 0 <= i < |items| ==> ItemOk(items[i])
    ensures var s := WriteItems(items) + t;
      Peek(Skip(s)) != ']' as int && ParseItems(Skip(s)) == ParseItems(s)
  {
    hide Write, Skip, ParseItems, TextOk, WriteItems;
    var i := items[0];
    ItemTextParts(items);
    FirstOf(i.value);
    hide Blank;
    var s := WriteItems(items) + t;
    assert i.before + Write(i.value) <= s;
    var r := s[|i.before|..];
    assert s == i.before + r && r[0] == s[|i.before|] == Write(i.value)[0];
    SkipBlank(i.before, r);
    SkipNone(r);
    ItemsSkip(i.before, r);
  }

  lemma ItemTextParts(items: seq<Item>)
    requires items != [] && forall i :: 0 <= i < |items| ==> ItemOk(items[i])
    ensures WriteItems(items) == items[0].before + (Write(items[0].value) + items[0].after)
      + if |items| == 1 then [] else [',' as int] + WriteItems(items[1..])
  {
    hide Write;
  }

  lemma {:induction false} ItemTextsRead(items: seq<Item>, t: seq<byte>)
    requires items != [] && forall i :: 0 <= i < |items| ==> ItemOk(items[i])
    ensures ParseItems(WriteItems(items) + ([']' as int] + t)) == Ok(ItemValues(items), t)
    decreases items, 3
  {
    hide ParseValue, ParseItems, Write, WriteItems, Meaning, ItemValues, Skip, Stops, Blank, TextOk;
    ItemTextParts(items);
    ItemValuesFirst(items);
    var i, close := items[0], [']' as int] + t;
    FirstOf(i.value);
    if |items| == 1 {
      var rest := i.after + close;
      BlankStops(i.after, ']' as int, t);
      TextReads(i.value, rest);
      var s := Write(i.value) + rest;
      SkipNone(s);
      LastItem(s, Meaning(i.value), rest, t);
      ItemsSkip(i.before, s);
      assert WriteItems(items) + close == i.before + s;
    } else {
      var u := WriteItems(items[1..]) + close;
      var rest := i.after + ([',' as int] + u);
      BlankStops(i.after, ',' as int, u);
      TextReads(i.value, rest);
      ItemTextsRead(items[1..], t);
      var s := Write(i.value) + rest;
      SkipNone(s);
      NextItem(s, Meaning(i.value), rest, u, ItemValues(items[1..]), t);
      ItemsSkip(i.before, s);
      assert WriteItems(items) + close == i.before + s;
    }
  }

  lemma ItemValuesFirst(items: seq<Item>)
    requires items != [] && forall i :: 0 <= i < |items| ==> ItemOk(items[i])
    ensures ItemOk(items[0])
    ensures var first := [Meaning(items[0].value)];
      ItemValues(items) == if |items| == 1 then first else first + ItemValues(items[1..])
  {
    hide Meaning;
  }

  lemma EmptyObjectReads(blank: seq<byte>, t: seq<byte>)
    requires Blank(blank)
    ensures ParseValue(['{' as int] + blank + ['}' as int] + t) == Ok(Object([]), t)
  {
    hide ParseValue, Skip, ParseMembers;
    var s := ['{' as int] + blank + ['}' as int] + t;
    BraceReads(s);
    assert s[1..] == blank + (['}' as int] + t);
    BlankStops(blank, '}' as int, t);
    assert (['}' as int] + t)[1..] == t;
  }

  lemma {:induction false} ObjectTextReads(blank: seq<byte>, entries: seq<Entry>, t: seq<byte>)
    requires TextOk(ObjectText(blank, entries))
    ensures ParseValue(Write(ObjectText(blank, entries)) + t) == Ok(Meaning(ObjectText(blank, entries)), t)
    decreases entries, 4
  {
    hide ParseValue, ParseMembers, WriteEntries, WriteEntry, Skip, Blank, EntryOk, EntryValues;
    if entries == [] {
      EmptyObjectReads(blank, t);
      assert EntryValues([]) == [] by { NoItemValues(); }
    } else {
      var s, u := Write(ObjectText(blank, entries)) + t, WriteEntries(entries) + (['}' as int] + t);
      BraceReads(s);
      assert s[1..] == u;
      EntriesStart(entries, ['}' as int] + t);
      EntriesRead(entries, t);
      assert ParseObject(s) == Ok(Object(EntryValues(entries)), t);
    }
  }

  lemma EntriesStart(entries: seq<Entry>, t: seq<byte>)
    requires entries != [] && forall i :: 0 <= i < |entries| ==> EntryOk(entries[i])
    ensures var s := WriteEntries(entries) + t;
      Peek(Skip(s)) != '}' as int && ParseMembers(Skip(s)) == ParseMembers(s)
  {
    hide Skip, ParseMembers, EntryOk, WriteEntries, WriteEntry, Blank;
    var e := entries[0];
    EntriesParts(entries);
    EntryStarts(e);
    var s := WriteEntries(entries) + t;
    assert WriteEntry(e) <= s;
    var r := s[|e.before|..];
    assert s == e.before + r && r[0] == WriteEntry(e)[|e.before|];
    SkipBlank(e.before, r);
    SkipNone(r);
    MembersBlank(e.before, r);
  }

  lemma EntryStarts(e: Entry)
    requires EntryOk(e)
    ensures Blank(e.before) && e.before <= WriteEntry(e) && |WriteEntry(e)| > |e.before| && WriteEntry(e)[|e.before|] == '\"' as int
  {
    hide Write, WriteChars, Blank;
  }

  lemma EntriesParts(entries: seq<Entry>)
    requires entries != [] && forall i :: 0 <= i < |entries| ==> EntryOk(entries[i])
    ensures WriteEntries(entries) == WriteEntry(entries[0]) + if |entries| == 1 then [] else [',' as int] + WriteEntries(entries[1..])
  {
    hide WriteEntry;
  }

  lemma EntryValuesFirst(entries: seq<Entry>)
    requires entries != [] && forall i :: 0 <= i < |entries| ==> EntryOk(entries[i])
    ensures EntryOk(entries[0])
    ensures var first := [Member(CharsBytes(entries[0].key), Meaning(entries[0].value))];
      EntryValues(entries) == if |entries| == 1 then first else first + EntryValues(entries[1..])
  {
    hide Meaning, CharsBytes;
  }

  /** A member up to the blanks behind its value. */
  lemma {:induction false} EntryReads(e: Entry, t: seq<byte>)
    requires EntryOk(e) && Stops(e.after + t)
    ensures ParseMember(WriteEntry(e) + t) == Ok(Member(CharsBytes(e.key), Meaning(e.value)), e.after + t)
    decreases e, 1
  {
    hide ParseValue, ParseString, Write, WriteString, CharsBytes, Meaning, Skip, Stops, Blank, CharsOk, TextOk;
    var value := Write(e.value) + (e.after + t);
    var colon := [':' as int] + (e.mid' + value);
    var key := WriteString(e.key) + (e.mid + colon);
    assert WriteEntry(e) + t == e.before + key;
    StringStarts(e.key, e.mid + colon);
    SkipBlank(e.before, key);
    SkipNone(key);
    StringTextReads(e.key, e.mid + colon);
    BlankStops(e.mid, ':' as int, e.mid' + value);
    assert colon[1..] == e.mid' + value;
    FirstOf(e.value);
    SkipBlank(e.mid', value);
    SkipNone(value);
    TextReads(e.value, e.after + t);
  }

  lemma StringStarts(cs: seq<Char>, t: seq<byte>)
    requires CharsOk(cs)
    ensures var s := WriteString(cs) + t; s != [] && s[0] > 32
  {
    hide WriteChars;
  }

  lemma CommaGlue(a: seq<byte>, b: seq<byte>, c: seq<byte>)
    ensures a + ([',' as int] + b) + c == a + ([',' as int] + (b + c))
  {
  }

  lemma {:induction false} EntriesRead(entries: seq<Entry>, t: seq<byte>)
    requires entries != [] && forall i :: 0 <= i < |entries| ==> EntryOk(entries[i])
    ensures ParseMembers(WriteEntries(entries) + (['}' as int] + t)) == Ok(EntryValues(entries), t)
    decreases entries, 3
  {
    hide ParseMember, ParseMembers, WriteEntry, WriteEntries, Meaning, CharsBytes, EntryValues, Skip, Stops, Blank, TextOk, CharsOk;
    EntriesParts(entries);
    EntryValuesFirst(entries);
    var e, close := entries[0], ['}' as int] + t;
    var m := Member(CharsBytes(e.key), Meaning(e.value));
    if |entries| == 1 {
      BlankStops(e.after, '}' as int, t);
      EntryReads(e, close);
      var s := WriteEntry(e) + close;
      LastMember(s, m, e.after + close, t);
      assert WriteEntries(entries) == WriteEntry(e) + [] == WriteEntry(e);
    } else {
      var u := WriteEntries(entries[1..]) + close;
      BlankStops(e.after, ',' as int, u);
      EntryReads(e, [',' as int] + u);
      EntriesRead(entries[1..], t);
      var s := WriteEntry(e) + ([',' as int] + u);
      NextMember(s, m, e.after + ([',' as int] + u), u, EntryValues(entries[1..]), t);
      CommaGlue(WriteEntry(e), WriteEntries(entries[1..]), close);
    }
  }

  /** A whole document: blanks, a text, and whatever follows it. */
  lemma DocumentReads(blank: seq<byte>, x: Text, t: seq<byte>)
    requires Blank(blank) && TextOk(x) && Stops(t)
    ensures ParseValue(Skip(blank + (Write(x) + t))) == Ok(Meaning(x), t)
  {
    hide ParseValue, Write, Meaning, TextOk, Skip, Stops;
    FirstOf(x);
    SkipBlank(blank, Write(x) + t);
    SkipNone(Write(x) + t);
    TextReads(x, t);
  }
}
