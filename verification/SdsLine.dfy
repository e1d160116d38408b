/**
 What a line given to sdssplitargs means: words, bare or quoted or both, with blanks around them. Every line has
 such a form, and it says what the line splits into, or what is wrong with it. Blanks, quotes and escapes are
 literals here.
 */
module SdsLine {
  import opened Bytes
  import opened SdsQuote

  predicate IsBlank(b: byte) { b == 32 || 9 <= b <= 13 }

  /** Bytes that end a bare word; the vertical tab and the form feed do not. */
  predicate EndsWord(b: byte) { b == 32 || b == 9 || b == 10 || b == 13 }

  /** A byte of a word that is not quoted. */
  predicate IsBare(b: byte) {
    b != 0 && b != '\"' as int && !EndsWord(b)
  }

  /** A byte between quotes: itself, or a backslash and any byte. */
  datatype Inner = Raw(b: byte) | Escaped(b: byte)

  predicate InnerOk(i: Inner) {
    if i.Raw? then i.b != 0 && i.b != '\"' as int && i.b != '\\' as int else i.b != 0
  }

  function WriteInner(i: Inner): seq<byte> {
    if i.Raw? then [i.b] else ['\\' as int, i.b]
  }

  function InnerByte(i: Inner): byte {
    if i.Raw? then i.b
    else if i.b == 'n' as int then 10
    else if i.b == 'r' as int then 13
    else if i.b == 't' as int then 9
    else if i.b == 'b' as int then 8
    else if i.b == 'a' as int then 7
    else i.b
  }

  ghost predicate InnersOk(inner: seq<Inner>) {
    forall i :: 0 <= i < |inner| ==> InnerOk(inner[i])
  }

  function WriteInners(inner: seq<Inner>): seq<byte> {
    if inner == [] then [] else WriteInner(inner[0]) + WriteInners(inner[1..])
  }

  function InnerBytes(inner: seq<Inner>): seq<byte> {
    if inner == [] then [] else [InnerByte(inner[0])] + InnerBytes(inner[1..])
  }

  ghost predicate AllBare(s: seq<byte>) {
    forall i :: 0 <= i < |s| ==> IsBare(s[i])
  }

  ghost predicate AllBlank(s: seq<byte>) {
    forall i :: 0 <= i < |s| ==> IsBlank(s[i])
  }

  /** A word: bare bytes, and then perhaps a quoted part that ends it. */
  datatype Word = Word(bare: seq<byte>, quoted: Option<seq<Inner>>)

  ghost predicate WordOk(w: Word) {
    && AllBare(w.bare) && (w.quoted.Some? ==> InnersOk(w.quoted.value))
    && (if w.bare == [] then w.quoted.Some? else !IsBlank(w.bare[0]))
  }

  function WriteWord(w: Word): seq<byte> {
    w.bare + if w.quoted.Some? then ['\"' as int] + WriteInners(w.quoted.value) + ['\"' as int] else []
  }

  function WordBytes(w: Word): seq<byte> {
    w.bare + if w.quoted.Some? then InnerBytes(w.quoted.value) else []
  }

  /** What is wrong: a quote that is never closed, perhaps with a backslash as the last byte, or closed before a non-blank. */
  datatype Fault = Open(backslash: bool) | Stuck(b: byte, rest: seq<byte>)

  predicate FaultOk(f: Fault) {
    f.Stuck? ==> f.b != 0 && !IsBlank(f.b)
  }

  function WriteFault(f: Fault): seq<byte> {
    match f
    case Open(backslash) => if backslash then ['\\' as int] else []
    case Stuck(b, rest) => ['\"' as int, b] + rest
  }

  /** A line from a word on: the word and the blanks behind it, and so on; or a word that is wrong; or nothing. */
  datatype Line =
    | End
    | Next(word: Word, blanks: seq<byte>, more: Line)
    | Wrong(bare: seq<byte>, inner: seq<Inner>, fault: Fault)

  /** The blanks behind a word end it; only a quoted one can be ended by any blank. */
  ghost predicate LineOk(x: Line) {
    match x
    case End => true
    case Next(w, blanks, more) =>
      && WordOk(w) && AllBlank(blanks) && LineOk(more)
      && (blanks == [] ==> more.End?) && (blanks != [] && w.quoted.None? ==> EndsWord(blanks[0]))
    case Wrong(bare, inner, fault) =>
      AllBare(bare) && (bare != [] ==> !IsBlank(bare[0])) && InnersOk(inner) && FaultOk(fault)
  }

  function Write(x: Line): seq<byte> {
    match x
    case End => []
    case Next(w, blanks, more) => WriteWord(w) + (blanks + Write(more))
    case Wrong(bare, inner, fault) => bare + (['\"' as int] + (WriteInners(inner) + WriteFault(fault)))
  }

  /** What it splits into; None when something is wrong. */
  function Meaning(x: Line): Option<seq<seq<byte>>> {
    match x
    case End => Some([])
    case Next(w, _, more) => if Meaning(more).None? then None else Some([WordBytes(w)] + Meaning(more).value)
    case Wrong(_, _, _) => None
  }

  // ----- Reading a line of this form -----

  lemma {:induction false} BareReads(bare: seq<byte>, t: seq<byte>)
    requires AllBare(bare)
    ensures Token(bare + t, false) == Append(bare, Token(t, false))
  {
    if bare == [] {
      assert bare + t == t;
      AppendNothing(Token(t, false));
    } else {
      var rest := bare[1..] + t;
      assert bare + t == [bare[0]] + rest && (bare + t)[1..] == rest;
      assert IsBare(bare[0]);
      BareReads(bare[1..], t);
      assert [bare[0]] + bare[1..] == bare;
      AppendTwice([bare[0]], bare[1..], Token(t, false));
    }
  }

  lemma InnerReads(i: Inner, t: seq<byte>)
    requires InnerOk(i)
    ensures Token(WriteInner(i) + t, true) == Append([InnerByte(i)], Token(t, true))
  {
    var s := WriteInner(i) + t;
    if i.Raw? {
      assert s[1..] == t;
    } else {
      assert s[1..] == [i.b] + t && s[2..] == t;
    }
  }

  lemma {:induction false} InnersRead(inner: seq<Inner>, t: seq<byte>)
    requires InnersOk(inner)
    ensures Token(WriteInners(inner) + t, true) == Append(InnerBytes(inner), Token(t, true))
  {
    hide Token, WriteInner, InnerByte, InnerOk;
    if inner == [] {
      assert WriteInners(inner) + t == t;
      AppendNothing(Token(t, true));
    } else {
      var rest := WriteInners(inner[1..]) + t;
      assert WriteInners(inner) + t == WriteInner(inner[0]) + rest;
      InnerReads(inner[0], rest);
      InnersRead(inner[1..], t);
      AppendTwice([InnerByte(inner[0])], InnerBytes(inner[1..]), Token(t, true));
    }
  }

  /** A word is one token, and what ends it is taken with it. */
  lemma WordReads(w: Word, t: seq<byte>)
    requires WordOk(w) && (t == [] || IsBlank(t[0])) && (w.quoted.None? && t != [] ==> EndsWord(t[0]))
    ensures Token(WriteWord(w) + t, false) == Ok(WordBytes(w), if w.quoted.None? && t != [] then t[1..] else t)
  {
    hide Token, WriteInners, InnerBytes, Append;
    if w.quoted.None? {
      BareReads(w.bare, t);
      assert WriteWord(w) + t == w.bare + t;
      BareEnds(t);
      AppendOk(w.bare, [], if t != [] then t[1..] else t);
      assert w.bare + [] == w.bare;
    } else {
      var inner := w.quoted.value;
      var u := WriteInners(inner) + (['\"' as int] + t);
      assert WriteWord(w) + t == w.bare + (['\"' as int] + u);
      BareReads(w.bare, ['\"' as int] + u);
      OpenQuote(u);
      InnersRead(inner, ['\"' as int] + t);
      CloseQuote(t);
      AppendOk(InnerBytes(inner), [], t);
      assert InnerBytes(inner) + [] == InnerBytes(inner);
      AppendOk(w.bare, InnerBytes(inner), t);
    }
  }

  lemma BareEnds(t: seq<byte>)
    requires t == [] || EndsWord(t[0])
    ensures Token(t, false) == Ok([], if t != [] then t[1..] else t)
  {
  }

  lemma AppendOk(a: seq<byte>, b: seq<byte>, rest: seq<byte>)
    ensures Append(a, Ok(b, rest)) == Ok(a + b, rest)
    ensures Append(a, Bad) == Bad
  {
  }

  lemma {:induction false} BlanksSkipped(lead: seq<byte>, t: seq<byte>)
    requires AllBlank(lead) && (t == [] || (t[0] != 0 && !IsBlank(t[0])))
    ensures SkipSpaces(lead + t) == t
  {
    if lead == [] {
      assert lead + t == t;
    } else {
      assert (lead + t)[1..] == lead[1..] + t;
      BlanksSkipped(lead[1..], t);
    }
  }

  /** What a line begins with is no blank. */
  lemma LineStart(x: Line)
    requires LineOk(x)
    ensures Write(x) == [] || (Write(x)[0] != 0 && !IsBlank(Write(x)[0]))
    ensures x.End? <==> Write(x) == []
  {
    hide WriteInners;
    if x.Next? {
      assert x.word.bare != [] ==> IsBare(x.word.bare[0]);
      assert WriteWord(x.word) != [];
    } else if x.Wrong? {
      assert x.bare != [] ==> IsBare(x.bare[0]);
    }
  }

  lemma FaultReads(f: Fault)
    requires FaultOk(f)
    ensures Token(WriteFault(f), true) == Bad
  {
    if f.Open? && f.backslash {
      assert Token([], true) == Bad;
    }
  }

  lemma WrongReads(bare: seq<byte>, inner: seq<Inner>, fault: Fault)
    requires LineOk(Wrong(bare, inner, fault))
    ensures Token(Write(Wrong(bare, inner, fault)), false) == Bad
  {
    hide Token, WriteInners, InnerBytes, Append, WriteFault;
    var u := WriteInners(inner) + WriteFault(fault);
    BareReads(bare, ['\"' as int] + u);
    OpenQuote(u);
    InnersRead(inner, WriteFault(fault));
    FaultReads(fault);
    AppendOk(InnerBytes(inner), [], []);
    AppendOk(bare, [], []);
  }

  lemma NoTokens(s: seq<byte>)
    requires SkipSpaces(s) == []
    ensures Tokens(s) == Ok([], [])
  {
  }

  lemma FirstToken(s: seq<byte>, t: seq<byte>)
    requires SkipSpaces(s) == t && Peek(t) != NUL
    ensures var p := Token(t, false);
      Tokens(s) == if p.Bad? then Bad else
        match Tokens(p.rest) case Bad => Bad case Ok(tokens, rest) => Ok([p.value] + tokens, rest)
  {
    hide Token;
  }

  /** A line splits into exactly the words it is made of, or is refused if one of them is wrong. */
  lemma {:induction false} LineSplits(lead: seq<byte>, x: Line)
    requires AllBlank(lead) && LineOk(x)
    ensures Tokens(lead + Write(x)) == if Meaning(x).None? then Bad else Ok(Meaning(x).value, [])
    decreases x, 0
  {
    hide Token, Tokens, SkipSpaces, WriteWord, WordBytes, WordOk, AllBlank;
    LineStart(x);
    BlanksSkipped(lead, Write(x));
    match x
    case End =>
      NoTokens(lead + Write(x));
    case Wrong(bare, inner, fault) =>
      WrongReads(bare, inner, fault);
      FirstToken(lead + Write(x), Write(x));
    case Next(w, blanks, more) =>
      NextSplits(lead, w, blanks, more);
  }

  lemma {:induction false} NextSplits(lead: seq<byte>, w: Word, blanks: seq<byte>, more: Line)
    requires AllBlank(lead) && LineOk(Next(w, blanks, more))
    ensures var x := Next(w, blanks, more);
      Tokens(lead + Write(x)) == if Meaning(x).None? then Bad else Ok(Meaning(x).value, [])
    decreases more, 1
  {
    hide Token, Tokens, SkipSpaces, WriteWord, WordBytes, WordOk;
    var x := Next(w, blanks, more);
    LineStart(x);
    BlanksSkipped(lead, Write(x));
    var t := blanks + Write(more);
    WordReads(w, t);
    FirstToken(lead + Write(x), Write(x));
    if w.quoted.None? && t != [] {
      assert t[1..] == blanks[1..] + Write(more);
      LineSplits(blanks[1..], more);
    } else {
      LineSplits(blanks, more);
    }
  }

  // ----- Every line has a form -----

  lemma {:induction false} BareSpan(s: seq<byte>) returns (n: nat)
    ensures n <= |s| && AllBare(s[..n]) && (n < |s| ==> !IsBare(s[n]))
  {
    n := 0;
    while n < |s| && IsBare(s[n])
      invariant n <= |s| && AllBare(s[..n])
    {
      n := n + 1;
    }
  }

  lemma {:induction false} BlankSpan(s: seq<byte>) returns (n: nat)
    ensures n <= |s| && AllBlank(s[..n]) && (n < |s| ==> !IsBlank(s[n]))
  {
    n := 0;
    while n < |s| && IsBlank(s[n])
      invariant n <= |s| && AllBlank(s[..n])
    {
      n := n + 1;
    }
  }

  /** Bytes after an opening quote, up to the one that closes it, or to the end. */
  lemma {:induction false} InnerForm(s: seq<byte>) returns (inner: seq<Inner>, tail: seq<byte>)
    requires NUL !in s
    ensures InnersOk(inner) && WriteInners(inner) + tail == s && |tail| <= |s|
    ensures tail == [] || tail == ['\\' as int] || tail[0] == '\"' as int
    decreases |s|
  {
    if s == [] || s == ['\\' as int] || s[0] == '\"' as int {
      inner, tail := [], s;
    } else {
      var i := if s[0] == '\\' as int then Escaped(s[1]) else Raw(s[0]);
      var k := if s[0] == '\\' as int then 2 else 1;
      var rest;
      rest, tail := InnerForm(s[k..]);
      inner := [i] + rest;
      assert inner[1..] == rest && WriteInners(inner) == WriteInner(i) + WriteInners(rest);
      assert s == s[..k] + s[k..] && s[..k] == WriteInner(i);
    }
  }

  lemma {:induction false} LineForm(s: seq<byte>) returns (x: Line)
    requires NUL !in s && (s == [] || !IsBlank(s[0]))
    ensures LineOk(x) && Write(x) == s
    decreases |s|, 0
  {
    hide WriteInners;
    var n := BareSpan(s);
    var bare, rest := s[..n], s[n..];
    assert s == bare + rest;
    if rest != [] && rest[0] == '\"' as int {
      x := QuoteForm(s, bare, rest[1..]);
    } else if s == [] {
      x := End;
    } else {
      assert rest != [] ==> EndsWord(rest[0]);
      var k := BlankSpan(rest);
      var more := LineForm(rest[k..]);
      x := Next(Word(bare, None), rest[..k], more);
      assert rest == rest[..k] + rest[k..];
      LineStart(more);
      assert WriteWord(x.word) == bare;
    }
  }

  lemma {:induction false} QuoteForm(s: seq<byte>, bare: seq<byte>, u: seq<byte>) returns (x: Line)
    requires NUL !in s && AllBare(bare) && (bare != [] ==> !IsBlank(bare[0])) && s == bare + (['\"' as int] + u)
    ensures LineOk(x) && Write(x) == s
    decreases |u|, 1
  {
    hide WriteInners, InnersOk, AllBare, WordOk, WriteWord;
    assert s[|bare| + 1..] == u;
    NoNul(s, |bare| + 1);
    var inner, tail := InnerForm(u);
    if tail == [] {
      x := Wrong(bare, inner, Open(false));
    } else if tail == ['\\' as int] {
      x := Wrong(bare, inner, Open(true));
    } else {
      var v := tail[1..];
      assert tail == ['\"' as int] + v;
      assert u[|WriteInners(inner)| + 1..] == v;
      NoNul(u, |WriteInners(inner)| + 1);
      if v != [] && !IsBlank(v[0]) {
        x := Wrong(bare, inner, Stuck(v[0], v[1..]));
        assert WriteFault(x.fault) == tail;
      } else {
        QuotedOk(bare, inner);
        x := QuotedForm(Word(bare, Some(inner)), v);
        QuoteText(bare, inner, v, s);
      }
    }
  }

  lemma QuotedOk(bare: seq<byte>, inner: seq<Inner>)
    requires AllBare(bare) && (bare != [] ==> !IsBlank(bare[0])) && InnersOk(inner)
    ensures WordOk(Word(bare, Some(inner)))
  {
  }

  lemma NoNul(s: seq<byte>, k: nat)
    requires NUL !in s && k <= |s|
    ensures NUL !in s[k..]
  {
  }

  /** A quoted word, the blanks behind it and the rest of the line. */
  lemma {:induction false} QuotedForm(w: Word, v: seq<byte>) returns (x: Line)
    requires WordOk(w) && w.quoted.Some? && NUL !in v && (v == [] || IsBlank(v[0]))
    ensures LineOk(x) && Write(x) == WriteWord(w) + v
    decreases |v|, 1
  {
    hide WordOk, WriteWord;
    var k := BlankSpan(v);
    NoNul(v, k);
    var more := LineForm(v[k..]);
    x := Next(w, v[..k], more);
    LineStart(more);
    assert v == v[..k] + v[k..];
  }

  lemma QuoteText(bare: seq<byte>, inner: seq<Inner>, v: seq<byte>, s: seq<byte>)
    requires s == bare + (['\"' as int] + (WriteInners(inner) + (['\"' as int] + v)))
    ensures WriteWord(Word(bare, Some(inner))) + v == s
  {
    hide WriteInners;
  }

  /** A line is refused exactly when a quote in it is never closed, or closed before anything but a blank. */
  lemma {:induction false} Refused(s: seq<byte>)
    requires NUL !in s
    ensures Tokens(s).Bad? <==> exists lead, x :: AllBlank(lead) && LineOk(x) && Meaning(x).None? && s == lead + Write(x)
  {
    hide Tokens, AllBlank, LineOk, Write, Meaning;
    var lead, x := AnyLine(s);
    LineSplits(lead, x);
    forall lead', x' | AllBlank(lead') && LineOk(x') && Meaning(x').None? && s == lead' + Write(x') ensures Tokens(s).Bad? {
      LineSplits(lead', x');
    }
  }

  /** Every line has a form. */
  lemma {:induction false} AnyLine(s: seq<byte>) returns (lead: seq<byte>, x: Line)
    requires NUL !in s
    ensures AllBlank(lead) && LineOk(x) && s == lead + Write(x)
  {
    var n := BlankSpan(s);
    lead := s[..n];
    x := LineForm(s[n..]);
    assert s == s[..n] + s[n..];
  }

  // ----- Quoted strings are such words -----

  /** The digit of a value below 16. */
  function DigitOf(v: int): byte
    requires 0 <= v < 16
  {
    if v < 10 then '0' as int + v else 'a' as int + (v - 10)
  }

  /** How a byte is written between quotes: as it is, as a letter that stands for it, or as two digits of its value. */
  function Spelled(b: byte): seq<Inner> {
    if b == '\\' as int || b == '\"' as int then [Escaped(b)]
    else if b == 10 then [Escaped('n' as int)]
    else if b == 13 then [Escaped('r' as int)]
    else if b == 9 then [Escaped('t' as int)]
    else if b == 7 then [Escaped('a' as int)]
    else if b == 8 then [Escaped('b' as int)]
    else if 32 <= b <= 126 then [Raw(b)]
    else [Escaped('x' as int), Raw(DigitOf(b / 16)), Raw(DigitOf(b % 16))]
  }

  function AllSpelled(s: seq<byte>): seq<Inner> {
    if s == [] then [] else Spelled(s[0]) + AllSpelled(s[1..])
  }

  lemma {:induction false} WriteInnersConcat(a: seq<Inner>, b: seq<Inner>)
    ensures WriteInners(a + b) == WriteInners(a) + WriteInners(b)
  {
    hide WriteInner;
    if a == [] {
      assert a + b == b;
    } else {
      assert (a + b)[1..] == a[1..] + b;
      WriteInnersConcat(a[1..], b);
    }
  }

  lemma OneText(i: Inner)
    ensures WriteInners([i]) == WriteInner(i)
  {
    assert WriteInners([i][1..]) == [];
  }

  lemma SpelledText(b: byte)
    ensures WriteInners(Spelled(b)) == ReprByte(b)
  {
    var inner := Spelled(b);
    if |inner| == 1 {
      OneText(inner[0]);
    } else {
      OneText(inner[0]);
      OneText(inner[1]);
      OneText(inner[2]);
      WriteInnersConcat([inner[0]], [inner[1]]);
      WriteInnersConcat([inner[0]] + [inner[1]], [inner[2]]);
      assert inner == [inner[0]] + [inner[1]] + [inner[2]];
    }
  }

  lemma {:induction false} ReprFirst(s: seq<byte>)
    requires s != []
    ensures ReprBytes(s) == ReprByte(s[0]) + ReprBytes(s[1..])
  {
    hide ReprByte;
    var n := |s| - 1;
    if n > 0 {
      ReprFirst(s[..n]);
      assert s[..n][1..] == s[1..][..n - 1] && s[1..][n - 1] == s[n];
    } else {
      assert s[..0] == [] && s[1..] == [];
    }
  }

  lemma {:induction false} ReprText(s: seq<byte>)
    ensures ReprBytes(s) == WriteInners(AllSpelled(s))
  {
    hide ReprByte, Spelled;
    if s != [] {
      ReprText(s[1..]);
      ReprFirst(s);
      WriteInnersConcat(Spelled(s[0]), AllSpelled(s[1..]));
      SpelledText(s[0]);
    }
  }

  /** What sdscatrepr writes is, byte by byte, one quoted word. */
  lemma ReprIs(s: seq<byte>)
    ensures Repr(s) == WriteWord(Word([], Some(AllSpelled(s))))
  {
    hide ReprBytes, WriteInners, AllSpelled;
    ReprText(s);
  }
}
