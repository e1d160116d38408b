/**
 The meaning of a RESP2 byte stream, written as a recursive-descent parser.
 This is the reference that the incremental reader in RespReader is held to: it
 keeps no stack and no cursor and sees all of the bytes at once.
 */
module RespSpec {
  import opened Bytes

  // The type codes of hiredis.h.
  const STRING := 1
  const ARRAY := 2
  const INTEGER := 3
  const NIL := 4
  const STATUS := 5
  const ERROR := 6

  // Index of the last slot of the nine-slot task stack.
  const MAX_DEPTH := 8

  /** A reply. NegArray is what the reader builds for an array count below -1. */
  datatype Reply =
    | Str(bytes: seq<byte>)
    | Status(bytes: seq<byte>)
    | Error(bytes: seq<byte>)
    | Integer(value: int)
    | Nil
    | Array(items: seq<Reply>)
    | NegArray(count: int)

  datatype ProtocolError = BadType(b: byte) | TooDeep

  /** What parsing an item yields: a value and what follows it, a wish for more bytes, or an error. */
  datatype Outcome<+T> = Done(value: T, rest: seq<byte>) | More | Fail(error: ProtocolError)

  /** The replies of a whole stream, and the error that ends it, if any. */
  datatype Stream = Stream(replies: seq<Reply>, failure: Option<ProtocolError>)

  function TypeOf(b: byte): (ty: int)
    ensures ty in {-1, STRING, ARRAY, INTEGER, STATUS, ERROR}
  {
    if b == '-' as int then ERROR
    else if b == '+' as int then STATUS
    else if b == ':' as int then INTEGER
    else if b == '$' as int then STRING
    else if b == '*' as int then ARRAY
    else -1
  }

  /** True iff a CR LF pair starts at index i of s. */
  predicate CrlfAt(s: seq<byte>, i: int) {
    0 <= i && i + 1 < |s| && s[i] == CR && s[i + 1] == LF
  }

  /** Index of the first CR LF pair, or -1. */
  function Crlf(s: seq<byte>): (k: int)
    ensures k == -1 || CrlfAt(s, k)
    ensures forall i :: 0 <= i < (if k == -1 then |s| else k) ==> !CrlfAt(s, i)
  {
    if |s| < 2 then -1
    else if CrlfAt(s, 0) then 0
    else
      var k := Crlf(s[1..]);
      assert forall i :: 0 < i < |s| ==> CrlfAt(s, i) == CrlfAt(s[1..], i - 1);
      if k == -1 then -1 else k + 1
  }

  /** The digits of a line up to the first CR (or its end) folded into v, or None at a non-digit. */
  function Digits(line: seq<byte>, v: int): Option<int> {
    if line == [] || line[0] == CR then Some(v)
    else if IsDigit(line[0]) then Digits(line[1..], v * 10 + line[0] - '0' as int)
    else None
  }

  /** The number a line stands for; -1 also stands for unexpected input. */
  function LineNumber(line: seq<byte>): int {
    var neg := line != [] && line[0] == '-' as int;
    var signed := line != [] && (line[0] == '-' as int || line[0] == '+' as int);
    match Digits(if signed then line[1..] else line, 0)
    case None => -1
    case Some(v) => if neg then -v else v
  }

  /** One item whose type byte is next. */
  function ParseItem(s: seq<byte>, depth: nat): (o: Outcome<Reply>)
    requires depth <= MAX_DEPTH
    ensures o.Done? ==> |o.rest| < |s|
    decreases |s|, 0
  {
    if s == [] then More
    else if TypeOf(s[0]) < 0 then Fail(BadType(s[0]))
    else ParseTyped(TypeOf(s[0]), s[1..], depth)
  }

  /** One item whose type has been read. */
  function ParseTyped(ty: int, s: seq<byte>, depth: nat): (o: Outcome<Reply>)
    requires ty in {STRING, ARRAY, INTEGER, STATUS, ERROR}
    requires depth <= MAX_DEPTH
    ensures o.Done? ==> |o.rest| < |s|
    decreases |s|, 1
  {
    if ty == ARRAY && depth == MAX_DEPTH then Fail(TooDeep)
    else
      var k := Crlf(s);
      if k == -1 then More
      else
        var line, rest := s[..k], s[k + 2..];
        if ty == STRING then BulkBody(LineNumber(line), rest)
        else if ty == ARRAY then ArrayBody(LineNumber(line), rest, depth)
        else Done(LineReply(ty, line), rest)
  }

  function LineReply(ty: int, line: seq<byte>): Reply {
    if ty == INTEGER then Integer(LineNumber(line))
    else if ty == STATUS then Status(line)
    else Error(line)
  }

  /** A bulk payload: n bytes and two more, whatever they are. */
  function BulkBody(n: int, s: seq<byte>): Outcome<Reply> {
    if n < 0 then Done(Nil, s)
    else if n + 2 <= |s| then Done(Str(s[..n]), s[n + 2..])
    else More
  }

  function ArrayBody(n: int, s: seq<byte>, depth: nat): (o: Outcome<Reply>)
    requires depth < MAX_DEPTH
    ensures o.Done? ==> |o.rest| <= |s|
    decreases |s|, if n < 0 then 1 else n + 1
  {
    if n == -1 then Done(Nil, s)
    else if n < 0 then Done(NegArray(n), s)
    else Gather([], ParseItems(s, n, depth + 1))
  }

  function Gather(before: seq<Reply>, o: Outcome<seq<Reply>>): Outcome<Reply> {
    match o
    case Done(rs, rest) => Done(Array(before + rs), rest)
    case More => More
    case Fail(e) => Fail(e)
  }

  /** n items in a row. */
  function ParseItems(s: seq<byte>, n: nat, depth: nat): (o: Outcome<seq<Reply>>)
    requires depth <= MAX_DEPTH
    ensures o.Done? ==> |o.rest| <= |s| && |o.value| == n
    decreases |s|, n
  {
    if n == 0 then Done([], s)
    else
      match ParseItem(s, depth)
      case More => More
      case Fail(e) => Fail(e)
      case Done(r, rest) =>
        match ParseItems(rest, n - 1, depth)
        case More => More
        case Fail(e) => Fail(e)
        case Done(rs, rest') => Done([r] + rs, rest')
  }

  function Prepend(rs: seq<Reply>, st: Stream): Stream {
    Stream(rs + st.replies, st.failure)
  }

  /** All the replies of a stream. */
  function ParseStream(s: seq<byte>): Stream
    decreases |s|
  {
    match ParseItem(s, 0)
    case More => Stream([], None)
    case Fail(e) => Stream([], Some(e))
    case Done(r, rest) => Prepend([r], ParseStream(rest))
  }

  // ----- How deep arrays may nest -----

  const ONE_ITEM: seq<byte> := ['*' as int, '1' as int, CR, LF]

  /** s inside k one-element arrays. */
  function Nest(k: nat, s: seq<byte>): seq<byte> {
    if k == 0 then s else ONE_ITEM + Nest(k - 1, s)
  }

  function Wrap(k: nat, o: Outcome<Reply>): Outcome<Reply> {
    if k == 0 then o
    else match Wrap(k - 1, o)
      case Done(r, rest) => Done(Array([r]), rest)
      case More => More
      case Fail(e) => Fail(e)
  }

  /** An array of one item is that item, one level deeper. */
  lemma OneItemReads(inner: seq<byte>, depth: nat)
    requires depth < MAX_DEPTH
    ensures ParseItem(ONE_ITEM + inner, depth) == Wrap(1, ParseItem(inner, depth + 1))
  {
    hide Crlf, LineNumber;
    var t := ONE_ITEM + inner;
    assert t[1..] == ['1' as int, CR, LF] + inner;
    OneItemLine(inner);
    assert ParseTyped(ARRAY, t[1..], depth) == ArrayBody(1, inner, depth);
    assert ParseItem(t, depth) == Gather([], ParseItems(inner, 1, depth + 1));
    var o := ParseItem(inner, depth + 1);
    if o.Done? {
      assert ParseItems(o.rest, 0, depth + 1) == Done([], o.rest);
      assert [] + ([o.value] + []) == [o.value];
    }
  }

  lemma NinthArray(s: seq<byte>)
    requires s != [] && s[0] == '*' as int
    ensures ParseItem(s, MAX_DEPTH) == Fail(TooDeep)
  {
    hide Crlf, LineNumber, ArrayBody, BulkBody, LineReply;
  }

  /** Up to eight arrays nest; a ninth is an error whatever it holds, as soon as its type byte is read. */
  lemma {:induction false} NestingLimit(k: nat, s: seq<byte>, depth: nat)
    requires depth <= MAX_DEPTH
    ensures depth + k <= MAX_DEPTH ==> ParseItem(Nest(k, s), depth) == Wrap(k, ParseItem(s, depth + k))
    ensures depth + k > MAX_DEPTH ==> ParseItem(Nest(k, s), depth) == Fail(TooDeep)
    decreases k
  {
    hide ParseItem, ParseTyped;
    if k > 0 {
      if depth < MAX_DEPTH {
        OneItemReads(Nest(k - 1, s), depth);
        NestingLimit(k - 1, s, depth + 1);
      } else {
        NinthArray(Nest(k, s));
      }
    }
  }

  lemma OneItemLine(s: seq<byte>)
    ensures var t := ['1' as int, CR, LF] + s;
      Crlf(t) == 1 && t[3..] == s && LineNumber(t[..1]) == 1
  {
    var t := ['1' as int, CR, LF] + s;
    assert CrlfAt(t, 1) && !CrlfAt(t, 0);
    assert t[..1] == ['1' as int];
    assert Digits(t[..1][1..], 1) == Some(1);
  }

  /** How deep the arrays of a reply nest. */
  function Height(r: Reply): nat
    decreases r, 0
  {
    match r
    case Array(items) => 1 + Tallest(items)
    case NegArray(_) => 1
    case _ => 0
  }

  function Tallest(rs: seq<Reply>): nat
    decreases rs, 1
  {
    if rs == [] then 0
    else
      var h, t := Height(rs[0]), Tallest(rs[1..]);
      if h >= t then h else t
  }

  /** What is not an array is flat. */
  lemma FlatReply(ty: int, s: seq<byte>, depth: nat)
    requires ty in {STRING, INTEGER, STATUS, ERROR} && depth <= MAX_DEPTH
    ensures var o := ParseTyped(ty, s, depth); o.Done? ==> Height(o.value) == 0
  {
    hide Crlf, LineNumber, ArrayBody, Tallest;
  }

  /** No reply of any shape nests deeper than eight arrays. */
  lemma {:induction false} NestingBound(s: seq<byte>, depth: nat)
    requires depth <= MAX_DEPTH
    ensures var o := ParseItem(s, depth); o.Done? ==> depth + Height(o.value) <= MAX_DEPTH
    decreases |s|, 0
  {
    hide Crlf, LineNumber, ParseTyped, Height;
    if ParseItem(s, depth).Done? {
      if TypeOf(s[0]) == ARRAY {
        ArrayBound(s[1..], depth);
      } else {
        FlatReply(TypeOf(s[0]), s[1..], depth);
      }
    }
  }

  lemma {:induction false} ArrayBound(s: seq<byte>, depth: nat)
    requires depth <= MAX_DEPTH
    ensures var o := ParseTyped(ARRAY, s, depth); o.Done? ==> depth + Height(o.value) <= MAX_DEPTH
    decreases |s|, 2
  {
    hide Crlf, LineNumber, ParseItems, Tallest;
    if depth < MAX_DEPTH && Crlf(s) != -1 {
      var n, rest := LineNumber(s[..Crlf(s)]), s[Crlf(s) + 2..];
      assert ParseTyped(ARRAY, s, depth) == ArrayBody(n, rest, depth);
      if n >= 0 {
        ItemsBound(rest, n, depth + 1);
        var o := ParseItems(rest, n, depth + 1);
        if o.Done? {
          assert [] + o.value == o.value;
        }
      }
    }
  }

  lemma {:induction false} ItemsBound(s: seq<byte>, n: nat, depth: nat)
    requires depth <= MAX_DEPTH
    ensures var o := ParseItems(s, n, depth); o.Done? ==> depth + Tallest(o.value) <= MAX_DEPTH
    decreases |s|, 1, n
  {
    if n > 0 && ParseItem(s, depth).Done? {
      NestingBound(s, depth);
      hide ParseItem;
      var rest := ParseItem(s, depth).rest;
      ItemsBound(rest, n - 1, depth);
      var o := ParseItems(rest, n - 1, depth);
      if o.Done? {
        var r := ParseItem(s, depth).value;
        assert ([r] + o.value)[1..] == o.value;
      }
    }
  }
}
