/** Printing a JSON value and parsing the text gives the value back, whatever follows the text. */
module JsonRoundTrip {
  import opened Bytes
  import opened Decimal
  import opened JsonSpec

  // ----- Blanks -----

  ghost predicate Blank(s: seq<byte>) {
    forall i :: 0 <= i < |s| ==> s[i] != NUL && s[i] <= 32
  }

  lemma {:induction false} SkipBlank(w: seq<byte>, s: seq<byte>)
    requires Blank(w)
    ensures Skip(w + s) == Skip(s)
    decreases |w|
  {
    if w == [] {
      assert w + s == s;
    } else {
      assert (w + s)[1..] == w[1..] + s;
      SkipBlank(w[1..], s);
    }
  }

  lemma {:induction false} TabsBlank(n: nat)
    ensures Blank(Tabs(n))
  {
    if n > 0 {
      TabsBlank(n - 1);
    }
  }

  // ----- Strings -----

  lemma PlainByteReads(b: byte, s: seq<byte>)
    requires b !in {NUL, QUOTE, BACKSLASH}
    ensures Unescape([b] + s) == Prefix([b], Unescape(s))
  {
    assert ([b] + s)[1..] == s;
  }

  lemma ShortEscapeReads(c: byte, s: seq<byte>)
    requires c != NUL && c != 'u' as int
    ensures Unescape([BACKSLASH, c] + s) == Prefix([Plain(c)], Unescape(s))
  {
    hide Unicode;
    var t := [BACKSLASH, c] + s;
    assert t[1..][0] == c && t[2..] == s;
  }

  lemma HexEscapeReads(b: byte, s: seq<byte>)
    requires 0 < b < 32
    ensures Unescape([BACKSLASH, 'u' as int, '0' as int, '0' as int, HexChar(b / 16), HexChar(b % 16)] + s) == Prefix([b], Unescape(s))
  {
    var u := ['0' as int, '0' as int, HexChar(b / 16), HexChar(b % 16)] + s;
    var t := [BACKSLASH, 'u' as int] + u;
    assert t == [BACKSLASH, 'u' as int, '0' as int, '0' as int, HexChar(b / 16), HexChar(b % 16)] + s;
    assert t[1..][0] == 'u' as int && t[2..] == u;
    UnicodeOf(b, u, s);
    hide Unicode, HexChar;
  }

  lemma UnicodeOf(b: byte, u: seq<byte>, s: seq<byte>)
    requires 0 < b < 32 && u == ['0' as int, '0' as int, HexChar(b / 16), HexChar(b % 16)] + s
    ensures Unicode(u) == Ok([b], s)
  {
    assert u[4..] == s;
    assert Hex4(u) == b;
  }

  lemma EscapedByteReads(b: byte, s: seq<byte>)
    requires b != NUL
    ensures Unescape(EscapeByte(b) + s) == Prefix([b], Unescape(s))
  {
    hide Unescape, Prefix;
    var e := EscapeByte(b);
    if |e| == 1 {
      PlainByteReads(b, s);
    } else if |e| == 2 {
      ShortEscapeReads(e[1], s);
    } else {
      HexEscapeReads(b, s);
    }
  }

  lemma {:induction false} EscapeReads(b: seq<byte>, t: seq<byte>)
    requires NUL !in b
    ensures Unescape(Escape(b) + [QUOTE] + t) == Ok(b, t)
    decreases |b|
  {
    if b == [] {
      assert ([] + [QUOTE] + t)[1..] == t;
    } else {
      var rest := Escape(b[1..]) + [QUOTE] + t;
      assert Escape(b) + [QUOTE] + t == EscapeByte(b[0]) + rest;
      EscapedByteReads(b[0], rest);
      EscapeReads(b[1..], t);
      assert [b[0]] + b[1..] == b;
    }
  }

  /** The printed form of a string is read back, and the reading stops right after its closing quote. */
  lemma StringReads(b: seq<byte>, t: seq<byte>)
    requires NUL !in b
    ensures ParseString(PrintString(b) + t) == Ok(b, t)
  {
    hide Unescape, Escape;
    EscapeReads(b, t);
    assert (PrintString(b) + t)[1..] == Escape(b) + [QUOTE] + t;
  }

  // ----- Numbers -----

  /** Text that does not continue a number. */
  ghost predicate Stops(t: seq<byte>) {
    !IsDigit(Peek(t)) && Peek(t) != '.' as int && Peek(t) != 'e' as int && Peek(t) != 'E' as int
  }

  lemma {:induction false} DigitRunStops(s: seq<byte>, t: seq<byte>)
    requires AllDigits(s) && Stops(t)
    ensures DigitRun(s + t) == |s|
    decreases |s|
  {
    if s == [] {
      assert s + t == t;
    } else {
      assert (s + t)[1..] == s[1..] + t;
      DigitRunStops(s[1..], t);
    }
  }

  lemma NaturalReads(n: nat, t: seq<byte>)
    requires Stops(t)
    ensures IntegerPart(Numeral(n) + t) == (n, t)
  {
    NumeralDigits(n);
    ScanNumeral(n);
    DigitRunStops(Numeral(n), t);
    var s := Numeral(n) + t;
    assert s[..|Numeral(n)|] == Numeral(n) && s[|Numeral(n)|..] == t;
    if n == 0 {
      assert s[1..] == t;
    }
  }

  lemma FirstDigit(n: nat, t: seq<byte>)
    ensures IsDigit(Peek(Numeral(n) + t))
  {
    NumeralDigits(n);
  }

  lemma NumberReads(m: int, t: seq<byte>)
    requires Stops(t)
    ensures ParseNumber(SignedNumeral(m) + t) == Ok(Number(m, 0), t)
  {
    var n := if m < 0 then -m else m;
    hide IntegerPart, Numeral;
    NaturalReads(n, t);
    FirstDigit(n, t);
    assert Fraction(n, t) == (n, 0, t) && Exponent(t) == (0, t);
    if m < 0 {
      assert (SignedNumeral(m) + t)[1..] == Numeral(n) + t;
    }
  }

  // ----- Values -----

  /** The first byte of a printed value says what it is, and is no blank. */
  lemma FirstByte(v: Json, depth: nat, fmt: bool)
    ensures var s := PrintValue(v, depth, fmt);
      s != [] && s[0] > 32 && s[0] != ']' as int && s[0] != '}' as int
    ensures v.Number? ==> StartsNumber(PrintValue(v, depth, fmt)[0])
  {
    if v.Number? {
      NumeralDigits(if v.mantissa < 0 then -v.mantissa else v.mantissa);
    }
  }

  lemma SkipNone(s: seq<byte>)
    requires s == [] || s[0] > 32
    ensures Skip(s) == s
  {
  }

  lemma LiteralReads(word: seq<byte>, t: seq<byte>)
    requires word in {NULL_TEXT, FALSE_TEXT, TRUE_TEXT}
    ensures ParseValue(word + t) == Ok(if word == NULL_TEXT then Null else if word == FALSE_TEXT then False else True, t)
  {
    hide ParseString, ParseNumber, ParseArray, ParseObject;
    var s := word + t;
    assert s[|word|..] == t && s[0] == word[0];
    assert NULL_TEXT[0] == 'n' as int && FALSE_TEXT[0] == 'f' as int && TRUE_TEXT[0] == 't' as int;
  }

  lemma NumeralReads(m: int, depth: nat, fmt: bool, t: seq<byte>)
    requires Stops(t)
    ensures ParseValue(SignedNumeral(m) + t) == Ok(Number(m, 0), t)
  {
    FirstByte(Number(m, 0), depth, fmt);
    hide SignedNumeral, ParseString, ParseNumber, ParseArray, ParseObject, Stops;
    NumberReads(m, t);
    assert (SignedNumeral(m) + t)[0] == SignedNumeral(m)[0];
  }

  lemma QuotedReads(b: seq<byte>, t: seq<byte>)
    requires NUL !in b
    ensures ParseValue(PrintString(b) + t) == Ok(String(b), t)
  {
    hide Escape, ParseString, ParseNumber, ParseArray, ParseObject;
    assert (PrintString(b) + t)[0] == QUOTE;
    StringReads(b, t);
  }

  lemma {:induction false} ValueReads(v: Json, depth: nat, fmt: bool, t: seq<byte>)
    requires Printable(v) && Stops(t)
    ensures ParseValue(PrintValue(v, depth, fmt) + t) == Ok(v, t)
    decreases v, 0
  {
    hide ParseValue, PrintString, PrintItems, PrintMembers, SignedNumeral, Stops, Tabs;
    match v
    case Null => LiteralReads(NULL_TEXT, t);
    case False => LiteralReads(FALSE_TEXT, t);
    case True => LiteralReads(TRUE_TEXT, t);
    case Number(m, _) => NumeralReads(m, depth, fmt, t);
    case String(b) => QuotedReads(b, t);
    case Array(items) => ArrayReads(items, depth, fmt, t);
    case Object(members) => ObjectReads(members, depth, fmt, t);
  }

  lemma BracketReads(s: seq<byte>)
    requires s != [] && s[0] == '[' as int
    ensures ParseValue(s) == ParseArray(s)
  {
    hide ParseArray;
  }

  lemma BraceReads(s: seq<byte>)
    requires s != [] && s[0] == '{' as int
    ensures ParseValue(s) == ParseObject(s)
  {
    hide ParseObject;
  }

  lemma {:induction false} ArrayReads(items: seq<Json>, depth: nat, fmt: bool, t: seq<byte>)
    requires forall i :: 0 <= i < |items| ==> Printable(items[i])
    ensures ParseValue(PrintValue(Array(items), depth, fmt) + t) == Ok(Array(items), t)
    decreases items, 3
  {
    hide ParseValue, ParseItems, PrintItems, Skip;
    var s := PrintValue(Array(items), depth, fmt) + t;
    BracketReads(s);
    SkipBracket(t);
    NoItems(depth + 1, fmt);
    var body := PrintItems(items, depth + 1, fmt) + [']' as int] + t;
    assert s[1..] == body;
    if items == [] {
      assert body == [']' as int] + t && body[1..] == t;
    } else {
      FirstByte(items[0], depth + 1, fmt);
      ItemsFirst(items, depth + 1, fmt);
      SkipNone(body);
      ItemsRead(items, depth + 1, fmt, t);
    }
    assert ParseArray(s) == Ok(Array(items), t);
  }

  lemma ItemsFirst(items: seq<Json>, depth: nat, fmt: bool)
    requires items != []
    ensures PrintValue(items[0], depth, fmt) <= PrintItems(items, depth, fmt)
  {
    hide PrintValue;
  }

  lemma NoItems(depth: nat, fmt: bool)
    ensures PrintItems([], depth, fmt) == []
  {
  }

  lemma SkipBracket(t: seq<byte>)
    ensures Skip([']' as int] + t) == [']' as int] + t
  {
    SkipNone([']' as int] + t);
  }

  lemma LastItem(s: seq<byte>, v: Json, rest: seq<byte>, t: seq<byte>)
    requires Skip(s) == s && ParseValue(s) == Ok(v, rest) && Skip(rest) == [']' as int] + t
    ensures ParseItems(s) == Ok([v], t)
  {
    assert ([']' as int] + t)[1..] == t;
  }

  lemma NextItem(s: seq<byte>, v: Json, rest: seq<byte>, u: seq<byte>, vs: seq<Json>, t: seq<byte>)
    requires Skip(s) == s && ParseValue(s) == Ok(v, rest) && Skip(rest) == [',' as int] + u && ParseItems(u) == Ok(vs, t)
    ensures ParseItems(s) == Ok([v] + vs, t)
  {
    assert ([',' as int] + u)[1..] == u;
  }

  lemma ItemsSkip(w: seq<byte>, s: seq<byte>)
    requires Blank(w)
    ensures ParseItems(w + s) == ParseItems(s)
  {
    SkipBlank(w, s);
  }

  lemma ItemsParts(items: seq<Json>, depth: nat, fmt: bool)
    requires items != []
    ensures var text, first := PrintItems(items, depth, fmt), PrintValue(items[0], depth, fmt);
      text == if |items| == 1 then first
        else first + [',' as int] + (if fmt then [SPACE] else []) + PrintItems(items[1..], depth, fmt)
  {
    hide PrintValue;
  }

  lemma {:induction false} ItemsRead(items: seq<Json>, depth: nat, fmt: bool, t: seq<byte>)
    requires items != [] && forall i :: 0 <= i < |items| ==> Printable(items[i])
    ensures ParseItems(PrintItems(items, depth, fmt) + [']' as int] + t) == Ok(items, t)
    decreases items, 2
  {
    hide ParseValue, ParseItems, PrintValue, PrintItems, Skip, Printable;
    ItemsParts(items, depth, fmt);
    var s := PrintItems(items, depth, fmt) + [']' as int] + t;
    var first := PrintValue(items[0], depth, fmt);
    FirstByte(items[0], depth, fmt);
    SkipNone(s);
    if |items| == 1 {
      var rest := [']' as int] + t;
      assert s == first + rest;
      ValueReads(items[0], depth, fmt, rest);
      SkipNone(rest);
      LastItem(s, items[0], rest, t);
      assert [items[0]] == items;
    } else {
      var w: seq<byte> := if fmt then [SPACE] else [];
      var tail := PrintItems(items[1..], depth, fmt) + [']' as int] + t;
      var rest := [',' as int] + (w + tail);
      assert s == first + rest;
      ValueReads(items[0], depth, fmt, rest);
      ItemsRead(items[1..], depth, fmt, t);
      ItemsSkip(w, tail);
      SkipNone(rest);
      NextItem(s, items[0], rest, w + tail, items[1..], t);
      assert [items[0]] + items[1..] == items;
    }
  }

  lemma {:induction false} ObjectReads(members: seq<Member>, depth: nat, fmt: bool, t: seq<byte>)
    requires forall i :: 0 <= i < |members| ==> NUL !in members[i].key && Printable(members[i].value)
    ensures ParseValue(PrintValue(Object(members), depth, fmt) + t) == Ok(Object(members), t)
    decreases members, 3
  {
    hide ParseValue, ParseMembers, PrintMembers, Skip, Tabs;
    var s := PrintValue(Object(members), depth, fmt) + t;
    var w: seq<byte> := if fmt then [LF] else [];
    var close := (if fmt then Tabs(depth) else []) + ['}' as int] + t;
    var body := PrintMembers(members, depth + 1, fmt) + close;
    BraceReads(s);
    assert s[1..] == w + body;
    SkipBlank(w, body);
    TabsBlank(depth);
    CloseReads(depth, fmt, t);
    if members == [] {
      NoMembers(depth + 1, fmt);
      assert body == close;
    } else {
      MembersRead(members, depth + 1, fmt, close, t);
      MembersFirst(members, depth + 1, fmt, close);
      MembersSkip(body);
    }
    assert ParseObject(s) == Ok(Object(members), t);
  }

  /** What follows the last member: blanks, then the closing brace and t. */
  ghost predicate Closes(fmt: bool, close: seq<byte>, t: seq<byte>) {
    var s := (if fmt then [LF] else []) + close;
    Skip(s) == ['}' as int] + t && Stops(s)
  }

  lemma CloseReads(depth: nat, fmt: bool, t: seq<byte>)
    ensures var close := (if fmt then Tabs(depth) else []) + ['}' as int] + t;
      Skip(close) == ['}' as int] + t && Closes(fmt, close, t)
  {
    var w := if fmt then Tabs(depth) else [];
    TabsBlank(depth);
    var brace := ['}' as int] + t;
    assert w + ['}' as int] + t == w + brace;
    SkipBlank(w, brace);
    SkipBlank([LF], w + brace);
    assert [] + (w + brace) == w + brace;
  }

  /** A list of members starts, after blanks, with the quote of a key. */
  lemma MembersStart(members: seq<Member>, depth: nat, fmt: bool)
    requires members != []
    ensures (if fmt then Tabs(depth) else []) + [QUOTE] <= PrintMembers(members, depth, fmt)
  {
    hide PrintValue, Escape, Tabs;
    assert PrintMember(members[0], depth, fmt) <= PrintMembers(members, depth, fmt);
  }

  lemma MembersFirst(members: seq<Member>, depth: nat, fmt: bool, close: seq<byte>)
    requires members != []
    ensures var s := Skip(PrintMembers(members, depth, fmt) + close);
      Peek(s) == QUOTE && Skip(s) == s
  {
    hide PrintMembers, Skip, Tabs;
    var w := if fmt then Tabs(depth) else [];
    var s := PrintMembers(members, depth, fmt) + close;
    TabsBlank(depth);
    MembersStart(members, depth, fmt);
    var r := s[|w|..];
    assert s == w + r && r[0] == (w + [QUOTE])[|w|];
    SkipBlank(w, r);
    SkipNone(r);
  }

  lemma NoMembers(depth: nat, fmt: bool)
    ensures PrintMembers([], depth, fmt) == []
  {
  }

  lemma MembersSkip(s: seq<byte>)
    ensures Skip(Skip(s)) == Skip(s) ==> ParseMembers(Skip(s)) == ParseMembers(s)
  {
  }

  lemma KeyFirst(key: seq<byte>, rest: seq<byte>)
    ensures Peek(PrintString(key) + rest) == QUOTE && PrintString(key) + rest != []
  {
  }

  lemma {:induction false} MemberReads(m: Member, depth: nat, fmt: bool, t: seq<byte>)
    requires NUL !in m.key && Printable(m.value) && Stops(t)
    ensures ParseMember(PrintMember(m, depth, fmt) + t) == Ok(m, t)
    decreases m, 1
  {
    hide PrintValue, PrintString, ParseValue, ParseString, Skip, Tabs;
    var w, gap: seq<byte> := if fmt then Tabs(depth) else [], if fmt then [9] else [];
    var value := PrintValue(m.value, depth, fmt);
    var s := PrintMember(m, depth, fmt) + t;
    var rest := [':' as int] + (gap + (value + t));
    assert s == w + (PrintString(m.key) + rest);
    TabsBlank(depth);
    SkipBlank(w, PrintString(m.key) + rest);
    KeyFirst(m.key, rest);
    SkipNone(PrintString(m.key) + rest);
    SkipNone(rest);
    StringReads(m.key, rest);
    assert rest[1..] == gap + (value + t);
    FirstByte(m.value, depth, fmt);
    SkipBlank(gap, value + t);
    SkipNone(value + t);
    ValueReads(m.value, depth, fmt, t);
  }

  lemma LastMember(s: seq<byte>, m: Member, rest: seq<byte>, t: seq<byte>)
    requires ParseMember(s) == Ok(m, rest) && Skip(rest) == ['}' as int] + t
    ensures ParseMembers(s) == Ok([m], t)
  {
    assert (['}' as int] + t)[1..] == t;
  }

  lemma NextMember(s: seq<byte>, m: Member, rest: seq<byte>, u: seq<byte>, ms: seq<Member>, t: seq<byte>)
    requires ParseMember(s) == Ok(m, rest) && Skip(rest) == [',' as int] + u && ParseMembers(u) == Ok(ms, t)
    ensures ParseMembers(s) == Ok([m] + ms, t)
  {
    assert ([',' as int] + u)[1..] == u;
  }

  lemma MembersBlank(w: seq<byte>, s: seq<byte>)
    requires Blank(w)
    ensures ParseMembers(w + s) == ParseMembers(s)
  {
    SkipBlank(w, s);
  }

  lemma MembersParts(members: seq<Member>, depth: nat, fmt: bool)
    requires members != []
    ensures var nl, first := if fmt then [LF] else [], PrintMember(members[0], depth, fmt);
      PrintMembers(members, depth, fmt) == if |members| == 1 then first + nl
        else first + [',' as int] + nl + PrintMembers(members[1..], depth, fmt)
  {
    hide PrintMember;
  }

  /** The text of a list of members: the first, then what follows it. */
  lemma MembersText(members: seq<Member>, depth: nat, fmt: bool, close: seq<byte>)
    requires members != []
    ensures var nl, first := if fmt then [LF] else [], PrintMember(members[0], depth, fmt);
      PrintMembers(members, depth, fmt) + close == first + (if |members| == 1 then nl + close
        else [',' as int] + (nl + (PrintMembers(members[1..], depth, fmt) + close)))
  {
    hide PrintMember, PrintMembers;
    var nl, first := if fmt then [LF] else [], PrintMember(members[0], depth, fmt);
    MembersParts(members, depth, fmt);
    if |members| == 1 {
      Regroup(first, [], nl, close);
    } else {
      var others := PrintMembers(members[1..], depth, fmt);
      Regroup(first + [',' as int], nl, others, close);
      assert first + [',' as int] + (nl + (others + close)) == first + ([',' as int] + (nl + (others + close)));
    }
  }

  lemma Regroup(a: seq<byte>, b: seq<byte>, c: seq<byte>, d: seq<byte>)
    ensures a + b + c + d == a + (b + (c + d))
  {
  }

  lemma {:induction false} MembersRead(members: seq<Member>, depth: nat, fmt: bool, close: seq<byte>, t: seq<byte>)
    requires members != []
    requires forall i :: 0 <= i < |members| ==> NUL !in members[i].key && Printable(members[i].value)
    requires Closes(fmt, close, t)
    ensures ParseMembers(PrintMembers(members, depth, fmt) + close) == Ok(members, t)
    decreases members, 2
  {
    hide ParseMember, ParseMembers, PrintMember, PrintMembers, Skip, Printable;
    var s := PrintMembers(members, depth, fmt) + close;
    var nl: seq<byte> := if fmt then [LF] else [];
    MembersText(members, depth, fmt, close);
    if |members| == 1 {
      MemberReads(members[0], depth, fmt, nl + close);
      LastMember(s, members[0], nl + close, t);
      assert [members[0]] == members;
    } else {
      hide Closes;
      var tail := PrintMembers(members[1..], depth, fmt) + close;
      MemberReads(members[0], depth, fmt, [',' as int] + (nl + tail));
      MembersRead(members[1..], depth, fmt, close, t);
      MembersBlank(nl, tail);
      SkipNone([',' as int] + (nl + tail));
      NextMember(s, members[0], [',' as int] + (nl + tail), nl + tail, members[1..], t);
      assert [members[0]] + members[1..] == members;
    }
  }

  /** Printing at any depth, formatted or not, and parsing what was printed is the identity. */
  lemma RoundTrip(v: Json, depth: nat, fmt: bool)
    requires Printable(v)
    ensures ParseValue(Skip(PrintValue(v, depth, fmt))) == Ok(v, [])
  {
    FirstByte(v, depth, fmt);
    ValueReads(v, depth, fmt, []);
    assert PrintValue(v, depth, fmt) + [] == PrintValue(v, depth, fmt);
  }

  /** No value prints a NUL, so the printed text is a C string. */
  lemma {:induction false} PrintNoNul(v: Json, depth: nat, fmt: bool)
    requires Printable(v)
    ensures NUL !in PrintValue(v, depth, fmt)
    decreases v, 0
  {
    hide Escape, Numeral, Tabs, PrintItems, PrintMembers;
    match v
    case Number(m, _) => NumeralDigits(if m < 0 then -m else m);
    case String(b) => EscapeNoNul(b);
    case Array(items) => ItemsNoNul(items, depth + 1, fmt);
    case Object(members) =>
      MembersNoNul(members, depth + 1, fmt);
      TabsBlank(depth);
    case _ =>
  }

  lemma {:induction false} EscapeNoNul(b: seq<byte>)
    requires NUL !in b
    ensures NUL !in PrintString(b) && NUL !in Escape(b)
  {
    if b != [] {
      EscapeNoNul(b[1..]);
    }
  }

  lemma {:induction false} ItemsNoNul(items: seq<Json>, depth: nat, fmt: bool)
    requires forall i :: 0 <= i < |items| ==> Printable(items[i])
    ensures NUL !in PrintItems(items, depth, fmt)
    decreases items, 1
  {
    if items != [] {
      PrintNoNul(items[0], depth, fmt);
      ItemsNoNul(items[1..], depth, fmt);
    }
  }

  lemma {:induction false} MembersNoNul(members: seq<Member>, depth: nat, fmt: bool)
    requires forall i :: 0 <= i < |members| ==> NUL !in members[i].key && Printable(members[i].value)
    ensures NUL !in PrintMembers(members, depth, fmt)
    decreases members, 1
  {
    if members != [] {
      TabsBlank(depth);
      EscapeNoNul(members[0].key);
      PrintNoNul(members[0].value, depth, fmt);
      MembersNoNul(members[1..], depth, fmt);
    }
  }
}
