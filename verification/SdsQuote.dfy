/** Quoting strings and splitting a line of quoted strings. */
module SdsQuote {
  import opened Bytes
  import opened Sds

  const BELL: byte := 7
  const BACKSPACE: byte := 8
  const TAB: byte := 9

  predicate IsPrint(b: byte) { 32 <= b <= 126 }

  predicate IsSpace(b: byte) { b == 32 || 9 <= b <= 13 }

  /** Bytes that survive quoting and splitting. */
  predicate Quotable(b: byte) {
    IsPrint(b) || b in {LF, CR, TAB, BELL, BACKSPACE}
  }

  // ----- Quoting -----

  function ReprByte(b: byte): (r: seq<byte>)
    ensures r != []
  {
    if b == BACKSLASH || b == QUOTE then [BACKSLASH, b]
    else if b == LF then [BACKSLASH, 'n' as int]
    else if b == CR then [BACKSLASH, 'r' as int]
    else if b == TAB then [BACKSLASH, 't' as int]
    else if b == BELL then [BACKSLASH, 'a' as int]
    else if b == BACKSPACE then [BACKSLASH, 'b' as int]
    else if IsPrint(b) then [b]
    else [BACKSLASH, 'x' as int, HexChar(b / 16), HexChar(b % 16)]
  }

  function ReprBytes(s: seq<byte>): seq<byte> {
    if s == [] then [] else ReprBytes(s[..|s| - 1]) + ReprByte(s[|s| - 1])
  }

  function Repr(s: seq<byte>): seq<byte> {
    [QUOTE] + ReprBytes(s) + [QUOTE]
  }

  method CatReprByte(s: Sds, b: byte)
    requires s.Valid()
    modifies s, s.buf
    ensures s.Valid() && (s.buf == old(s.buf) || fresh(s.buf))
    ensures s.Contents() == old(s.Contents()) + ReprByte(b)
  {
    if b == BACKSLASH || b == QUOTE {
      s.CatLen([BACKSLASH, b]);
    } else if b == LF {
      s.CatLen([BACKSLASH, 'n' as int]);
    } else if b == CR {
      s.CatLen([BACKSLASH, 'r' as int]);
    } else if b == TAB {
      s.CatLen([BACKSLASH, 't' as int]);
    } else if b == BELL {
      s.CatLen([BACKSLASH, 'a' as int]);
    } else if b == BACKSPACE {
      s.CatLen([BACKSLASH, 'b' as int]);
    } else if IsPrint(b) {
      s.CatLen([b]);
    } else {
      s.CatLen([BACKSLASH, 'x' as int, HexChar(b / 16), HexChar(b % 16)]);
    }
  }

  /** sdscatrepr. */
  method CatRepr(s: Sds, p: seq<byte>)
    requires s.Valid()
    modifies s, s.buf
    ensures s.Valid() && (s.buf == old(s.buf) || fresh(s.buf))
    ensures s.Contents() == old(s.Contents()) + Repr(p)
  {
    hide ReprByte, Sds.Valid, Sds.Contents;
    ghost var was := s.Contents();
    s.CatLen([QUOTE]);
    var i := 0;
    while i < |p|
      invariant 0 <= i <= |p| && s.Valid() && (s.buf == old(s.buf) || fresh(s.buf))
      invariant s.Contents() == was + [QUOTE] + ReprBytes(p[..i])
    {
      assert p[..i + 1][..i] == p[..i];
      CatReprByte(s, p[i]);
      i := i + 1;
    }
    assert p[..i] == p;
    s.CatLen([QUOTE]);
    assert was + [QUOTE] + ReprBytes(p) + [QUOTE] == was + Repr(p);
  }

  // ----- Splitting -----

  datatype Split<+T> = Ok(value: T, rest: seq<byte>) | Bad

  /** What a backslash escape stands for. */
  function Unquote(b: byte): byte {
    if b == 'n' as int then LF
    else if b == 'r' as int then CR
    else if b == 't' as int then TAB
    else if b == 'b' as int then BACKSPACE
    else if b == 'a' as int then BELL
    else b
  }

  function Cons(b: byte, p: Split<seq<byte>>): Split<seq<byte>> {
    match p
    case Ok(bs, rest) => Ok([b] + bs, rest)
    case Bad => Bad
  }

  /** One token, inside quotes or not, and what follows the byte that ends it. */
  function Token(s: seq<byte>, inq: bool): (p: Split<seq<byte>>)
    ensures p.Ok? ==> |p.rest| <= |s| && (Peek(s) != NUL ==> |p.rest| < |s|)
    decreases |s|
  {
    if Peek(s) == NUL then if inq then Bad else Ok([], s)
    else if inq then
      if s[0] == BACKSLASH && Peek(s[1..]) != NUL then Cons(Unquote(s[1]), Token(s[2..], true))
      else if s[0] == QUOTE then if Peek(s[1..]) != NUL && !IsSpace(s[1]) then Bad else Ok([], s[1..])
      else Cons(s[0], Token(s[1..], true))
    else if s[0] in {SPACE, LF, CR, TAB} then Ok([], s[1..])
    else if s[0] == QUOTE then Token(s[1..], true)
    else Cons(s[0], Token(s[1..], false))
  }

  function SkipSpaces(s: seq<byte>): (r: seq<byte>)
    ensures |r| <= |s|
  {
    if Peek(s) != NUL && IsSpace(s[0]) then SkipSpaces(s[1..]) else s
  }

  /** All the tokens of a line. */
  function Tokens(s: seq<byte>): Split<seq<seq<byte>>>
    decreases |s|
  {
    var t := SkipSpaces(s);
    if Peek(t) == NUL then Ok([], t)
    else
      match Token(t, false)
      case Bad => Bad
      case Ok(token, rest) =>
        match Tokens(rest)
        case Bad => Bad
        case Ok(tokens, rest') => Ok([token] + tokens, rest')
  }

  // ----- The round trip -----

  /** Quoted strings with a space between each two. */
  function Quoted(args: seq<seq<byte>>): seq<byte> {
    if args == [] then []
    else if |args| == 1 then Repr(args[0])
    else Repr(args[0]) + [SPACE] + Quoted(args[1..])
  }

  function GarbledByte(b: byte): seq<byte> {
    if Quotable(b) then [b] else ['x' as int, HexChar(b / 16), HexChar(b % 16)]
  }

  /** What a string comes back as: a byte outside the domain turns into an x and two digits. */
  function Garbled(s: seq<byte>): seq<byte> {
    if s == [] then []
    else
      var b := s[|s| - 1];
      Garbled(s[..|s| - 1]) + GarbledByte(b)
  }

  function AllGarbled(args: seq<seq<byte>>): seq<seq<byte>> {
    if args == [] then [] else [Garbled(args[0])] + AllGarbled(args[1..])
  }

  function Append(bs: seq<byte>, p: Split<seq<byte>>): Split<seq<byte>> {
    match p
    case Ok(cs, rest) => Ok(bs + cs, rest)
    case Bad => Bad
  }

  lemma PlainReads(b: byte, t: seq<byte>)
    requires b !in {NUL, BACKSLASH, QUOTE}
    ensures Token([b] + t, true) == Cons(b, Token(t, true))
  {
    assert ([b] + t)[1..] == t;
  }

  lemma EscapeReads(b: byte, t: seq<byte>)
    requires b != NUL
    ensures Token([BACKSLASH, b] + t, true) == Cons(Unquote(b), Token(t, true))
  {
    var s := [BACKSLASH, b] + t;
    assert s[1..][0] == b && s[2..] == t;
  }

  lemma ReprByteReads(b: byte, t: seq<byte>)
    ensures Token(ReprByte(b) + t, true) == Append(GarbledByte(b), Token(t, true))
  {
    hide Token;
    var r := ReprByte(b);
    if |r| == 1 {
      PlainReads(b, t);
    } else if |r| == 2 {
      EscapeReads(r[1], t);
    } else {
      EscapeReads(r[1], [r[2], r[3]] + t);
      PlainReads(r[2], [r[3]] + t);
      PlainReads(r[3], t);
      assert r + t == [r[0], r[1]] + ([r[2], r[3]] + t) && [r[2], r[3]] + t == [r[2]] + ([r[3]] + t);
      var p := Token(t, true);
      assert p.Ok? ==> [r[1]] + ([r[2]] + ([r[3]] + p.value)) == [r[1], r[2], r[3]] + p.value;
    }
  }

  lemma {:induction false} ReprBytesRead(a: seq<byte>, t: seq<byte>)
    ensures Token(ReprBytes(a) + t, true) == Append(Garbled(a), Token(t, true))
  {
    hide Token, ReprByte, GarbledByte;
    var p := Token(t, true);
    if a == [] {
      assert [] + t == t;
      assert p.Ok? ==> [] + p.value == p.value;
    } else {
      hide Append;
      var n := |a| - 1;
      ReprBytesRead(a[..n], ReprByte(a[n]) + t);
      assert ReprBytes(a) + t == ReprBytes(a[..n]) + (ReprByte(a[n]) + t);
      ReprByteReads(a[n], t);
      AppendTwice(Garbled(a[..n]), GarbledByte(a[n]), p);
    }
  }

  lemma AppendTwice(a: seq<byte>, b: seq<byte>, p: Split<seq<byte>>)
    ensures Append(a, Append(b, p)) == Append(a + b, p)
  {
    assert p.Ok? ==> a + (b + p.value) == a + b + p.value;
  }

  /** A quoted string is one token, if a space or the end of the line follows it. */
  lemma ReprReads(a: seq<byte>, t: seq<byte>)
    requires Peek(t) == NUL || IsSpace(t[0])
    ensures Token(Repr(a) + t, false) == Ok(Garbled(a), t)
  {
    hide ReprBytes, Token, Garbled;
    var q := [QUOTE] + t;
    assert Repr(a) + t == [QUOTE] + (ReprBytes(a) + q);
    OpenQuote(ReprBytes(a) + q);
    ReprBytesRead(a, q);
    CloseQuote(t);
    assert Garbled(a) + [] == Garbled(a);
  }

  lemma OpenQuote(s: seq<byte>)
    ensures Token([QUOTE] + s, false) == Token(s, true)
  {
    assert ([QUOTE] + s)[1..] == s;
  }

  lemma CloseQuote(t: seq<byte>)
    requires Peek(t) == NUL || IsSpace(t[0])
    ensures Token([QUOTE] + t, true) == Ok([], t)
  {
    assert ([QUOTE] + t)[1..] == t;
  }

  /** Splitting a line of quoted strings gives each of them back, garbled. */
  lemma {:induction false} QuotedReads(args: seq<seq<byte>>)
    ensures Tokens(Quoted(args)) == Ok(AllGarbled(args), [])
  {
    if args != [] {
      var t := if |args| == 1 then [] else [SPACE] + Quoted(args[1..]);
      assert Quoted(args) == Repr(args[0]) + t;
      ReprReads(args[0], t);
      QuotedReads(args[1..]);
      if |args| > 1 {
        assert t[1..] == Quoted(args[1..]);
        SpaceSkipped(Quoted(args[1..]));
      }
    }
  }

  lemma SpaceSkipped(t: seq<byte>)
    ensures Tokens([SPACE] + t) == Tokens(t)
  {
    assert ([SPACE] + t)[1..] == t;
  }

  ghost predicate AllQuotable(s: seq<byte>) {
    forall i :: 0 <= i < |s| ==> Quotable(s[i])
  }

  lemma GarbledByteIs(b: byte)
    ensures if Quotable(b) then GarbledByte(b) == [b] else |GarbledByte(b)| == 3
  {
  }

  lemma AllQuotableLast(s: seq<byte>)
    requires s != []
    ensures AllQuotable(s) <==> AllQuotable(s[..|s| - 1]) && Quotable(s[|s| - 1])
  {
    hide Quotable;
  }

  lemma {:induction false} GarbledIs(s: seq<byte>)
    ensures |Garbled(s)| >= |s|
    ensures AllQuotable(s) ==> Garbled(s) == s
    ensures |Garbled(s)| == |s| ==> AllQuotable(s)
  {
    hide Quotable, GarbledByte, AllQuotable;
    if s == [] {
      assert AllQuotable(s) by { NoneUnquotable(); }
    } else {
      var front, last := s[..|s| - 1], s[|s| - 1];
      GarbledIs(front);
      GarbledByteIs(last);
      AllQuotableLast(s);
      assert s == front + [last];
    }
  }

  lemma NoneUnquotable()
    ensures AllQuotable([])
  {
  }

  /** Splitting gives the strings back if and only if all their bytes are quotable. */
  lemma RoundTrip(args: seq<seq<byte>>)
    ensures Tokens(Quoted(args)) == Ok(args, []) <==> forall k :: 0 <= k < |args| ==> AllQuotable(args[k])
  {
    hide Tokens, Quoted, Garbled, AllQuotable;
    QuotedReads(args);
    AllGarbledAt(args);
    var garbled := AllGarbled(args);
    forall k | 0 <= k < |args| ensures garbled[k] == args[k] <==> AllQuotable(args[k]) {
      GarbledIs(args[k]);
    }
    if forall k :: 0 <= k < |args| ==> AllQuotable(args[k]) {
      assert garbled == args;
    } else {
      var k :| 0 <= k < |args| && !AllQuotable(args[k]);
      assert garbled[k] != args[k];
    }
  }

  lemma {:induction false} AllGarbledAt(args: seq<seq<byte>>)
    ensures |AllGarbled(args)| == |args| && forall k :: 0 <= k < |args| ==> AllGarbled(args)[k] == Garbled(args[k])
  {
    if args != [] {
      AllGarbledAt(args[1..]);
    }
  }

  // ----- The splitter -----

  method SkipBlanks(line: seq<byte>) returns (p: seq<byte>)
    ensures p == SkipSpaces(line)
  {
    p := line;
    while Peek(p) != NUL && IsSpace(p[0])
      invariant SkipSpaces(p) == SkipSpaces(line)
      decreases |p|
    {
      p := p[1..];
    }
  }

  lemma AppendCons(a: seq<byte>, b: byte, q: Split<seq<byte>>)
    ensures Append(a, Cons(b, q)) == Append(a + [b], q)
  {
    if q.Ok? {
      assert a + ([b] + q.value) == a + [b] + q.value;
    }
  }

  /** Collects one token; None on unbalanced quotes. */
  method TakeToken(line: seq<byte>) returns (current: Sds, rest: Option<seq<byte>>)
    ensures fresh(current) && fresh(current.buf) && current.Valid()
    ensures Token(line, false).Bad? ==> rest == None
    ensures Token(line, false).Ok? ==> rest == Some(Token(line, false).rest) && current.Contents() == Token(line, false).value
  {
    hide Sds.Valid, Sds.Contents;
    current := new Sds.NewLen([]);
    var p, inq, done := line, false, false;
    assert Append([], Token(line, false)) == Token(line, false) by { AppendNothing(Token(line, false)); }
    while !done
      invariant current.Valid() && fresh(current) && fresh(current.buf)
      invariant Token(line, false) == Append(current.Contents(), if done then Ok([], p) else Token(p, inq))
      decreases !done, |p|
    {
      ghost var was := current.Contents();
      if inq {
        if Peek(p) == BACKSLASH && Peek(p[1..]) != NUL {
          AppendCons(was, Unquote(p[1]), Token(p[2..], true));
          p := p[1..];
          current.CatLen([Unquote(p[0])]);
        } else if Peek(p) == QUOTE {
          if Peek(p[1..]) != NUL && !IsSpace(p[1]) {
            return current, None;
          }
          done := true;
        } else if Peek(p) == NUL {
          return current, None;
        } else {
          AppendCons(was, p[0], Token(p[1..], true));
          current.CatLen([p[0]]);
        }
      } else if Peek(p) in {SPACE, LF, CR, TAB, NUL} {
        done := true;
      } else if p[0] == QUOTE {
        inq := true;
      } else {
        AppendCons(was, p[0], Token(p[1..], false));
        current.CatLen([p[0]]);
      }
      if Peek(p) != NUL {
        p := p[1..];
      }
    }
    rest := Some(p);
    assert current.Contents() + [] == current.Contents();
  }

  lemma AppendNothing(q: Split<seq<byte>>)
    ensures Append([], q) == q
  {
    if q.Ok? {
      assert [] + q.value == q.value;
    }
  }

  function AppendAll(done: seq<seq<byte>>, q: Split<seq<seq<byte>>>): Split<seq<seq<byte>>> {
    match q
    case Ok(tokens, rest) => Ok(done + tokens, rest)
    case Bad => Bad
  }

  lemma TokensNext(done: seq<seq<byte>>, p: seq<byte>)
    requires Peek(SkipSpaces(p)) != NUL
    ensures var q := Token(SkipSpaces(p), false);
      AppendAll(done, Tokens(p)) == if q.Bad? then Bad else AppendAll(done + [q.value], Tokens(q.rest))
  {
    var q := Token(SkipSpaces(p), false);
    if q.Ok? && Tokens(q.rest).Ok? {
      assert done + ([q.value] + Tokens(q.rest).value) == done + [q.value] + Tokens(q.rest).value;
    }
  }

  /** The vector holds these strings. */
  ghost predicate Holds(vector: seq<Sds>, tokens: seq<seq<byte>>)
    reads vector, set i | 0 <= i < |vector| :: vector[i].buf
  {
    |vector| == |tokens| && forall i :: 0 <= i < |vector| ==> vector[i].Valid() && vector[i].Contents() == tokens[i]
  }

  /** sdssplitargs: on an error everything is released and the count has been run down to -1. */
  method SplitArgs(line: seq<byte>) returns (vector: seq<Sds>, argc: int)
    ensures Tokens(line).Ok? ==> argc == |vector| && Holds(vector, Tokens(line).value)
    ensures Tokens(line).Bad? ==> argc == -1 && vector == []
  {
    hide Sds.Valid, Sds.Contents, Token;
    vector, argc := [], 0;
    var p := line;
    ghost var done: seq<seq<byte>> := [];
    ghost var all := Tokens(line);
    assert all.Ok? ==> [] + all.value == all.value;
    while true
      invariant argc == |vector| && Holds(vector, done) && all == AppendAll(done, Tokens(p))
      decreases |p|
    {
      ghost var before := p;
      p := SkipBlanks(p);
      if Peek(p) == NUL {
        assert done + [] == done;
        return;
      }
      TokensNext(done, before);
      var current, rest := TakeToken(p);
      if rest == None {
        while argc >= 0
          decreases argc
        {
          argc := argc - 1;
        }
        return [], -1;
      }
      done := done + [Token(p, false).value];
      vector := vector + [current];
      argc := argc + 1;
      p := rest.value;
    }
  }
}
