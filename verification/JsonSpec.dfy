/**
 JSON as this parser and this printer understand it: what a text means, what a value prints as,
 and the proof that printing then parsing gives the value back. A C pointer into read-only,
 NUL-terminated text is modelled as the text that remains from there on.
 */
module JsonSpec {
  import opened Bytes
  import opened Decimal

  /** A number is mantissa * 10^scale, before any rounding to a double. */
  datatype Json =
    | Null
    | False
    | True
    | Number(mantissa: int, scale: int)
    | String(bytes: seq<byte>)
    | Array(items: seq<Json>)
    | Object(members: seq<Member>)

  datatype Member = Member(key: seq<byte>, value: Json)

  /** Undefined: the C code reads beyond the text or uses a variable it never set. */
  datatype Parse<+T> = Ok(value: T, rest: seq<byte>) | Rejected | Undefined

  function Skip(s: seq<byte>): (r: seq<byte>)
    ensures |r| <= |s|
  {
    if s != [] && s[0] != NUL && s[0] <= 32 then Skip(s[1..]) else s
  }

  predicate StartsWith(s: seq<byte>, word: seq<byte>) {
    word <= s
  }

  const NULL_TEXT: seq<byte> := ['n' as int, 'u' as int, 'l' as int, 'l' as int]
  const FALSE_TEXT: seq<byte> := ['f' as int, 'a' as int, 'l' as int, 's' as int, 'e' as int]
  const TRUE_TEXT: seq<byte> := ['t' as int, 'r' as int, 'u' as int, 'e' as int]

  // ----- Strings -----

  predicate IsHex(b: byte) {
    IsDigit(b) || 'a' as int <= b <= 'f' as int || 'A' as int <= b <= 'F' as int
  }

  function HexDigit(b: byte): (v: int)
    requires IsHex(b)
    ensures 0 <= v < 16
  {
    if IsDigit(b) then b - '0' as int
    else if 'a' as int <= b <= 'f' as int then b - 'a' as int + 10
    else b - 'A' as int + 10
  }

  predicate IsHex4(s: seq<byte>) {
    |s| >= 4 && IsHex(s[0]) && IsHex(s[1]) && IsHex(s[2]) && IsHex(s[3])
  }

  function Hex4(s: seq<byte>): (v: int)
    requires IsHex4(s)
    ensures 0 <= v < 0x10000
  {
    HexDigit(s[0]) * 4096 + HexDigit(s[1]) * 256 + HexDigit(s[2]) * 16 + HexDigit(s[3])
  }

  /** 0x10000 | x, for x below 0x100000: adds bit 16 unless x has it already. */
  function OrBit16(x: int): int {
    if (x / 0x10000) % 2 == 1 then x else x + 0x10000
  }

  /** The code point the parser makes of a surrogate pair. */
  function PairCode(high: int, low: int): int {
    OrBit16((high % 0x400) * 0x400 + low % 0x400)
  }

  /** The bytes the parser emits for a code point. */
  function Utf8(uc: int): (r: seq<byte>)
    requires 0 <= uc < 0x200000
    ensures 1 <= |r| <= 4 && (uc < 0x10000 ==> |r| <= 3)
  {
    var u6 := uc / 64;
    var u12 := u6 / 64;
    var u18 := u12 / 64;
    if uc < 0x80 then [uc]
    else if uc < 0x800 then [0xC0 + u6, 0x80 + uc % 64]
    else if uc < 0x10000 then [0xE0 + u12, 0x80 + u6 % 64, 0x80 + uc % 64]
    else [0xF0 + u18, 0x80 + u12 % 64, 0x80 + u6 % 64, 0x80 + uc % 64]
  }

  /** What one \u escape yields: the bytes it emits and what follows. s starts after the u. */
  function Unicode(s: seq<byte>): (p: Parse<seq<byte>>)
    ensures !p.Rejected?
    ensures p.Ok? ==> |p.rest| + |p.value| + 1 <= |s|
  {
    if !IsHex4(s) then Undefined
    else
      var uc := Hex4(s);
      if 0xDC00 <= uc <= 0xDFFF || uc == 0 then Ok([], s[4..])
      else if 0xD800 <= uc <= 0xDBFF then
        if Peek(s[4..]) != BACKSLASH || Peek(s[5..]) != 'u' as int then Ok([], s[4..])
        else if !IsHex4(s[6..]) then Undefined
        else
          var low := Hex4(s[6..]);
          if low < 0xDC00 || low > 0xDFFF then Ok([], s[10..])
          else Ok(Utf8(PairCode(uc, low)), s[10..])
      else Ok(Utf8(uc), s[4..])
  }

  /** What a backslash escape other than \u stands for. */
  function Plain(b: byte): byte {
    if b == 'b' as int then 8
    else if b == 'f' as int then 12
    else if b == 'n' as int then 10
    else if b == 'r' as int then 13
    else if b == 't' as int then 9
    else b
  }

  function Prefix(b: seq<byte>, p: Parse<seq<byte>>): Parse<seq<byte>> {
    match p
    case Ok(bs, rest) => Ok(b + bs, rest)
    case other => other
  }

  /** A string after its opening quote; the end of the text closes it too. */
  function Unescape(s: seq<byte>): (p: Parse<seq<byte>>)
    ensures !p.Rejected?
    ensures p.Ok? ==> |p.rest| <= |s|
    decreases |s|
  {
    if Peek(s) == NUL then Ok([], s)
    else if s[0] == QUOTE then Ok([], s[1..])
    else if s[0] != BACKSLASH then Prefix([s[0]], Unescape(s[1..]))
    else if Peek(s[1..]) == NUL then Undefined
    else if s[1] != 'u' as int then Prefix([Plain(s[1])], Unescape(s[2..]))
    else
      var p := Unicode(s[2..]);
      if p.Ok? then Prefix(p.value, Unescape(p.rest)) else Undefined
  }

  function ParseString(s: seq<byte>): (p: Parse<seq<byte>>)
    ensures p.Ok? ==> |p.rest| < |s|
  {
    if Peek(s) != QUOTE then Rejected else Unescape(s[1..])
  }

  // ----- Numbers -----

  /** Number of digits at the front. */
  function DigitRun(s: seq<byte>): (n: nat)
    ensures n <= |s|
    ensures forall i :: 0 <= i < n ==> IsDigit(s[i])
    ensures n < |s| ==> !IsDigit(s[n])
  {
    if s != [] && IsDigit(s[0]) then DigitRun(s[1..]) + 1 else 0
  }

  /** Digits before the point: one leading zero at most is skipped, then digits if the first is not a zero. */
  function IntegerPart(s: seq<byte>): (r: (int, seq<byte>))
    ensures |r.1| <= |s|
  {
    var t := if Peek(s) == '0' as int then s[1..] else s;
    if '1' as int <= Peek(t) <= '9' as int then (Scan(t[..DigitRun(t)], 0), t[DigitRun(t)..]) else (0, t)
  }

  /** Digits after the point, if a point and a digit come next. */
  function Fraction(n: int, s: seq<byte>): (r: (int, int, seq<byte>))
    ensures |r.2| <= |s|
  {
    if Peek(s) == '.' as int && IsDigit(Peek(s[1..])) then
      var k := DigitRun(s[1..]);
      (Scan(s[1..][..k], n), 0 - k, s[1..][k..])
    else (n, 0, s)
  }

  function Exponent(s: seq<byte>): (r: (int, seq<byte>))
    ensures |r.1| <= |s|
  {
    if Peek(s) == 'e' as int || Peek(s) == 'E' as int then
      var t := s[1..];
      var u := if Peek(t) == '+' as int || Peek(t) == '-' as int then t[1..] else t;
      var k := DigitRun(u);
      ((if Peek(t) == '-' as int then -1 else 1) * Scan(u[..k], 0), u[k..])
    else (0, s)
  }

  function ParseNumber(s: seq<byte>): (p: Parse<Json>)
    ensures p.Ok? && |p.rest| <= |s|
  {
    var t := if Peek(s) == '-' as int then s[1..] else s;
    var (n, t1) := IntegerPart(t);
    var (m, scale, t2) := Fraction(n, t1);
    var (subscale, t3) := Exponent(t2);
    Ok(Number(if Peek(s) == '-' as int then -m else m, scale + subscale), t3)
  }

  // ----- Values -----

  predicate StartsNumber(b: byte) {
    b == '-' as int || IsDigit(b)
  }

  function ParseValue(s: seq<byte>): (p: Parse<Json>)
    ensures p.Ok? ==> |p.rest| <= |s|
    decreases |s|, 1
  {
    if StartsWith(s, NULL_TEXT) then Ok(Null, s[4..])
    else if StartsWith(s, FALSE_TEXT) then Ok(False, s[5..])
    else if StartsWith(s, TRUE_TEXT) then Ok(True, s[4..])
    else if Peek(s) == QUOTE then
      match ParseString(s)
      case Ok(b, rest) => Ok(String(b), rest)
      case Rejected => Rejected
      case Undefined => Undefined
    else if StartsNumber(Peek(s)) then ParseNumber(s)
    else if Peek(s) == '[' as int then ParseArray(s)
    else if Peek(s) == '{' as int then ParseObject(s)
    else Rejected
  }

  function ParseArray(s: seq<byte>): (p: Parse<Json>)
    requires Peek(s) == '[' as int
    ensures p.Ok? ==> |p.rest| < |s|
    decreases |s|, 0
  {
    var t := Skip(s[1..]);
    if Peek(t) == ']' as int then Ok(Array([]), t[1..])
    else
      match ParseItems(t)
      case Ok(items, rest) => Ok(Array(items), rest)
      case Rejected => Rejected
      case Undefined => Undefined
  }

  /** Values separated by commas up to the closing bracket. */
  function ParseItems(s: seq<byte>): (p: Parse<seq<Json>>)
    ensures p.Ok? ==> |p.rest| <= |s|
    decreases |s|, 2
  {
    match ParseValue(Skip(s))
    case Rejected => Rejected
    case Undefined => Undefined
    case Ok(v, rest) =>
      var t := Skip(rest);
      if Peek(t) == ',' as int then
        match ParseItems(t[1..])
        case Ok(vs, rest') => Ok([v] + vs, rest')
        case other => other
      else if Peek(t) == ']' as int then Ok([v], t[1..])
      else Rejected
  }

  function ParseObject(s: seq<byte>): (p: Parse<Json>)
    requires Peek(s) == '{' as int
    ensures p.Ok? ==> |p.rest| < |s|
    decreases |s|, 0
  {
    var t := Skip(s[1..]);
    if Peek(t) == '}' as int then Ok(Object([]), t[1..])
    else
      match ParseMembers(t)
      case Ok(ms, rest) => Ok(Object(ms), rest)
      case Rejected => Rejected
      case Undefined => Undefined
  }

  /** A key, a colon and a value. */
  function ParseMember(s: seq<byte>): (p: Parse<Member>)
    ensures p.Ok? ==> |p.rest| < |s|
    decreases |s|, 1
  {
    match ParseString(Skip(s))
    case Rejected => Rejected
    case Undefined => Undefined
    case Ok(key, rest) =>
      var t := Skip(rest);
      if Peek(t) != ':' as int then Rejected
      else
        match ParseValue(Skip(t[1..]))
        case Rejected => Rejected
        case Undefined => Undefined
        case Ok(v, rest') => Ok(Member(key, v), rest')
  }

  /** Members separated by commas up to the closing brace. */
  function ParseMembers(s: seq<byte>): (p: Parse<seq<Member>>)
    ensures p.Ok? ==> |p.rest| <= |s|
    decreases |s|, 2
  {
    match ParseMember(s)
    case Rejected => Rejected
    case Undefined => Undefined
    case Ok(m, rest) =>
      var t := Skip(rest);
      if Peek(t) == ',' as int then
        match ParseMembers(t[1..])
        case Ok(ms, rest') => Ok([m] + ms, rest')
        case other => other
      else if Peek(t) == '}' as int then Ok([m], t[1..])
      else Rejected
  }

  // ----- Printing -----

  /** How one byte of a string is written. */
  function EscapeByte(b: byte): (r: seq<byte>)
    ensures r != []
  {
    if b > 31 && b != QUOTE && b != BACKSLASH then [b]
    else if b == BACKSLASH || b == QUOTE then [BACKSLASH, b]
    else if b == 8 then [BACKSLASH, 'b' as int]
    else if b == 12 then [BACKSLASH, 'f' as int]
    else if b == 10 then [BACKSLASH, 'n' as int]
    else if b == 13 then [BACKSLASH, 'r' as int]
    else if b == 9 then [BACKSLASH, 't' as int]
    else [BACKSLASH, 'u' as int, '0' as int, '0' as int, HexChar(b / 16), HexChar(b % 16)]
  }

  function Escape(s: seq<byte>): seq<byte> {
    if s == [] then [] else EscapeByte(s[0]) + Escape(s[1..])
  }

  function PrintString(s: seq<byte>): seq<byte> {
    [QUOTE] + Escape(s) + [QUOTE]
  }

  function Tabs(n: nat): seq<byte> {
    if n == 0 then [] else [9] + Tabs(n - 1)
  }

  function PrintValue(v: Json, depth: nat, fmt: bool): seq<byte>
    decreases v, 0
  {
    match v
    case Null => NULL_TEXT
    case False => FALSE_TEXT
    case True => TRUE_TEXT
    case Number(m, _) => SignedNumeral(m)
    case String(b) => PrintString(b)
    case Array(items) => ['[' as int] + PrintItems(items, depth + 1, fmt) + [']' as int]
    case Object(members) =>
      ['{' as int] + (if fmt then [LF] else []) + PrintMembers(members, depth + 1, fmt)
      + (if fmt then Tabs(depth) else []) + ['}' as int]
  }

  function PrintItems(items: seq<Json>, depth: nat, fmt: bool): seq<byte>
    decreases items, 1
  {
    if items == [] then []
    else if |items| == 1 then PrintValue(items[0], depth, fmt)
    else
      PrintValue(items[0], depth, fmt) + [',' as int] + (if fmt then [SPACE] else [])
      + PrintItems(items[1..], depth, fmt)
  }

  function PrintMember(m: Member, depth: nat, fmt: bool): seq<byte>
    decreases m, 1
  {
    (if fmt then Tabs(depth) else []) + PrintString(m.key) + [':' as int] + (if fmt then [9] else [])
    + PrintValue(m.value, depth, fmt)
  }

  function PrintMembers(members: seq<Member>, depth: nat, fmt: bool): seq<byte>
    decreases members, 2
  {
    if members == [] then []
    else
      PrintMember(members[0], depth, fmt) + (if |members| > 1 then [',' as int] else [])
      + (if fmt then [LF] else []) + PrintMembers(members[1..], depth, fmt)
  }

  /** What a cJSON tree can hold and print exactly: 32-bit integers, and strings without a NUL. */
  ghost predicate Printable(v: Json)
    decreases v
  {
    match v
    case Number(m, scale) => scale == 0 && -0x8000_0000 <= m < 0x8000_0000
    case String(b) => NUL !in b
    case Array(items) => forall i :: 0 <= i < |items| ==> Printable(items[i])
    case Object(members) =>
      forall i :: 0 <= i < |members| ==> NUL !in members[i].key && Printable(members[i].value)
    case _ => true
  }
}
