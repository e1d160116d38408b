/**
 The texts of the Redis serialization protocol, written out byte by byte, and the proof that the recursive parser,
 and with it the reader in any chunks, takes each for the value it stands for. Nothing here is said through the
 parser's own functions: type bytes are literals, and numbers are numerals.
 */
module RespWire {
  import opened Bytes
  import opened Decimal
  import opened RespSpec
  import RespFormat
  import opened RespMachine
  import opened RespRuns

  // ----- Numbers -----

  /** What may stand in front of the digits of a number. */
  datatype Sign = NoSign | Plus | Minus

  function SignBytes(sign: Sign): seq<byte> {
    match sign
    case NoSign => []
    case Plus => ['+' as int]
    case Minus => ['-' as int]
  }

  /** The digits of a line that begins with them: the number, or -1 if they end at anything but a CR or the end. */
  lemma {:induction false} DigitsRead(digits: seq<byte>, tail: seq<byte>, v: int)
    requires AllDigits(digits) && (tail == [] || !IsDigit(tail[0]))
    ensures Digits(digits + tail, v) == if tail == [] || tail[0] == 13 then Some(Scan(digits, v)) else None
    decreases |digits|
  {
    if digits == [] {
      assert digits + tail == tail;
    } else {
      assert (digits + tail)[1..] == digits[1..] + tail;
      DigitsRead(digits[1..], tail, v * 10 + digits[0] - '0' as int);
    }
  }

  /**
   Every line is a sign or none, some digits, and a rest that does not begin with a digit. It stands for the signed
   number of the digits if the rest is empty or begins with a CR, and for -1 otherwise.
   */
  lemma LineNumberIs(sign: Sign, digits: seq<byte>, tail: seq<byte>)
    requires AllDigits(digits) && (tail == [] || !IsDigit(tail[0]))
    requires sign == NoSign && digits == [] && tail != [] ==> tail[0] != '+' as int && tail[0] != '-' as int
    ensures LineNumber(SignBytes(sign) + digits + tail) ==
      if tail != [] && tail[0] != 13 then -1 else if sign == Minus then -Scan(digits, 0) else Scan(digits, 0)
  {
    var line := SignBytes(sign) + digits + tail;
    DigitsRead(digits, tail, 0);
    if sign == NoSign {
      assert line == digits + tail;
      assert digits != [] ==> IsDigit(line[0]);
    } else {
      assert line[1..] == digits + tail;
    }
  }

  /** A numeral as C's %d writes it, with as many zeros and a plus more as one likes, stands for its number. */
  function Spelled(i: int, plus: bool, zeros: nat): seq<byte> {
    SignBytes(if i < 0 then Minus else if plus then Plus else NoSign) + (Zeros(zeros) + Numeral(if i < 0 then -i else i))
  }

  function Zeros(n: nat): seq<byte> {
    if n == 0 then [] else ['0' as int] + Zeros(n - 1)
  }

  lemma {:induction false} ZerosScan(n: nat, digits: seq<byte>)
    requires AllDigits(digits)
    ensures AllDigits(Zeros(n) + digits) && Scan(Zeros(n) + digits, 0) == Scan(digits, 0)
    decreases n
  {
    if n == 0 {
      assert Zeros(n) + digits == digits;
    } else {
      ZerosScan(n - 1, digits);
      var rest := Zeros(n - 1) + digits;
      assert Zeros(n) + digits == ['0' as int] + rest;
      hide Zeros;
      assert (['0' as int] + rest)[1..] == rest;
    }
  }

  lemma SpelledReads(i: int, plus: bool, zeros: nat)
    ensures LineNumber(Spelled(i, plus, zeros)) == i
    ensures forall k :: 0 <= k < |Spelled(i, plus, zeros)| ==> Spelled(i, plus, zeros)[k] != 13
  {
    var n := if i < 0 then -i else i;
    var digits := Zeros(zeros) + Numeral(n);
    NumeralDigits(n);
    ScanNumeral(n);
    ZerosScan(zeros, Numeral(n));
    var sign := if i < 0 then Minus else if plus then Plus else NoSign;
    LineNumberIs(sign, digits, []);
    assert SignBytes(sign) + digits + [] == Spelled(i, plus, zeros);
  }

  lemma NumeralSpelled(i: int)
    ensures Spelled(i, false, 0) == SignedNumeral(i)
  {
    hide Numeral;
    var digits := Numeral(if i < 0 then -i else i);
    assert [] + digits == digits;
  }

  // ----- Lines -----

  /** No CR LF anywhere in the line and the line end behind it but that line end. */
  ghost predicate OneLine(line: seq<byte>) {
    forall i :: 0 <= i < |line| - 1 ==> !(line[i] == 13 && line[i + 1] == 10)
  }

  lemma LineEnds(line: seq<byte>, t: seq<byte>)
    requires OneLine(line)
    ensures var s := line + [13, 10] + t;
      Crlf(s) == |line| && s[..|line|] == line && s[|line| + 2..] == t
  {
    var s, k := line + [13, 10] + t, |line|;
    assert CrlfAt(s, k);
    forall i | 0 <= i < k ensures !CrlfAt(s, i) {
      assert s[i] == line[i] && s[i + 1] == if i + 1 < k then line[i + 1] else 13;
    }
    var j := Crlf(s);
    assert j != -1 ==> CrlfAt(s, j);
  }

  // ----- Texts -----

  /**
   A text of the protocol. The two bytes after a bulk payload can be any. A bulk without payload has a negative
   length, an array without items a negative count or none.
   */
  datatype Wire =
    | Simple(line: seq<byte>)
    | Fault(line: seq<byte>)
    | Number(value: int, plus: bool, zeros: nat)
    | Bulk(bytes: seq<byte>, x: byte, y: byte)
    | NoBulk(below: nat)
    | NoList(below: nat)
    | List(items: seq<Wire>)

  ghost predicate Writable(w: Wire)
    decreases w
  {
    match w
    case Simple(line) => OneLine(line)
    case Fault(line) => OneLine(line)
    case List(items) => forall i :: 0 <= i < |items| ==> Writable(items[i])
    case _ => true
  }

  function Write(w: Wire): seq<byte>
    decreases w, 0
  {
    match w
    case Simple(line) => ['+' as int] + line + [13, 10]
    case Fault(line) => ['-' as int] + line + [13, 10]
    case Number(value, plus, zeros) => [':' as int] + Spelled(value, plus, zeros) + [13, 10]
    case Bulk(bytes, x, y) => ['$' as int] + Numeral(|bytes|) + [13, 10] + bytes + [x, y]
    case NoBulk(below) => ['$' as int] + ['-' as int] + Numeral(1 + below) + [13, 10]
    case NoList(below) => ['*' as int] + ['-' as int] + Numeral(1 + below) + [13, 10]
    case List(items) => ['*' as int] + Numeral(|items|) + [13, 10] + WriteAll(items)
  }

  function WriteAll(ws: seq<Wire>): seq<byte>
    decreases ws, 1
  {
    if ws == [] then [] else Write(ws[0]) + WriteAll(ws[1..])
  }

  function Meaning(w: Wire): Reply
    decreases w, 0
  {
    match w
    case Simple(line) => Status(line)
    case Fault(line) => Error(line)
    case Number(value, _, _) => Integer(value)
    case Bulk(bytes, _, _) => Str(bytes)
    case NoBulk(_) => Nil
    case NoList(below) => if below == 0 then Nil else NegArray(-1 - below)
    case List(items) => Array(Meanings(items))
  }

  function Meanings(ws: seq<Wire>): (rs: seq<Reply>)
    ensures |rs| == |ws|
    decreases ws, 1
  {
    if ws == [] then [] else [Meaning(ws[0])] + Meanings(ws[1..])
  }

  /** How deep the array texts nest, those without items included. */
  function Depth(w: Wire): nat
    decreases w, 0
  {
    match w
    case List(items) => 1 + Deepest(items)
    case NoList(_) => 1
    case _ => 0
  }

  function Deepest(ws: seq<Wire>): nat
    decreases ws, 1
  {
    if ws == [] then 0
    else
      var h, d := Depth(ws[0]), Deepest(ws[1..]);
      if h >= d then h else d
  }

  // ----- Reading them -----

  /** A byte that starts no text is an error that names it, whatever follows. */
  lemma OtherTypes(b: byte, t: seq<byte>, depth: nat)
    requires depth <= 8 && b !in {'+' as int, '-' as int, ':' as int, '$' as int, '*' as int}
    ensures ParseItem([b] + t, depth) == Fail(BadType(b))
  {
  }

  lemma OneLineReads(ty: byte, line: seq<byte>, t: seq<byte>, depth: nat)
    requires depth <= 8 && OneLine(line) && ty in {'+' as int, '-' as int, ':' as int}
    ensures ParseItem([ty] + line + [13, 10] + t, depth) == Done(
      if ty == '+' as int then Status(line) else if ty == '-' as int then Error(line) else Integer(LineNumber(line)), t)
  {
    hide Crlf, LineNumber, OneLine, BulkBody, ArrayBody;
    var s := [ty] + line + [13, 10] + t;
    LineEnds(line, t);
    assert s[1..] == line + [13, 10] + t;
  }

  lemma SpelledLine(i: int, plus: bool, zeros: nat)
    ensures OneLine(Spelled(i, plus, zeros)) && LineNumber(Spelled(i, plus, zeros)) == i
  {
    hide Spelled;
    SpelledReads(i, plus, zeros);
  }

  lemma NumberLine(i: int)
    ensures OneLine(SignedNumeral(i)) && LineNumber(SignedNumeral(i)) == i
  {
    SpelledLine(i, false, 0);
    NumeralSpelled(i);
  }

  lemma BulkTextReads(bytes: seq<byte>, x: byte, y: byte, t: seq<byte>, depth: nat)
    requires depth <= 8
    ensures ParseItem(['$' as int] + Numeral(|bytes|) + [13, 10] + bytes + [x, y] + t, depth) == Done(Str(bytes), t)
  {
    hide Crlf, LineNumber, OneLine, Numeral, ArrayBody;
    var line, body := Numeral(|bytes|), bytes + [x, y] + t;
    var s := ['$' as int] + line + [13, 10] + bytes + [x, y] + t;
    NumberLine(|bytes|);
    LineEnds(line, body);
    assert s[1..] == line + [13, 10] + body;
    assert body[..|bytes|] == bytes && body[|bytes| + 2..] == t;
  }

  lemma NoBulkReads(below: nat, t: seq<byte>, depth: nat)
    requires depth <= 8
    ensures ParseItem(['$' as int] + ['-' as int] + Numeral(1 + below) + [13, 10] + t, depth) == Done(Nil, t)
  {
    hide Crlf, LineNumber, OneLine, Numeral, ArrayBody;
    var line := ['-' as int] + Numeral(1 + below);
    var s := ['$' as int] + ['-' as int] + Numeral(1 + below) + [13, 10] + t;
    NumberLine(-1 - below);
    assert line == SignedNumeral(-1 - below);
    LineEnds(line, t);
    assert s[1..] == line + [13, 10] + t;
  }

  /** An array header: too deep, whatever the count, or the array body of its count. */
  lemma HeaderReads(n: int, t: seq<byte>, depth: nat)
    requires depth <= 8
    ensures ParseItem(['*' as int] + SignedNumeral(n) + [13, 10] + t, depth)
      == if depth == 8 then Fail(TooDeep) else ArrayBody(n, t, depth)
  {
    hide Crlf, LineNumber, OneLine, SignedNumeral, ArrayBody, BulkBody;
    var line := SignedNumeral(n);
    var s := ['*' as int] + line + [13, 10] + t;
    NumberLine(n);
    LineEnds(line, t);
    assert s[1..] == line + [13, 10] + t;
  }

  lemma NoListReads(below: nat, t: seq<byte>, depth: nat)
    requires depth <= 8
    ensures ParseItem(['*' as int] + ['-' as int] + Numeral(1 + below) + [13, 10] + t, depth)
      == if depth == 8 then Fail(TooDeep) else Done(if below == 0 then Nil else NegArray(-1 - below), t)
  {
    hide ParseItem, Numeral;
    HeaderReads(-1 - below, t, depth);
    assert ['*' as int] + (['-' as int] + Numeral(1 + below)) == ['*' as int] + ['-' as int] + Numeral(1 + below);
  }

  /**
   Every text is read as what it stands for, with what follows it left, when its arrays nest no deeper than the
   stack allows; otherwise the nesting is the error.
   */
  lemma {:induction false} WriteReads(w: Wire, t: seq<byte>, depth: nat)
    requires Writable(w) && depth <= 8
    ensures ParseItem(Write(w) + t, depth) == if depth + Depth(w) <= 8 then Done(Meaning(w), t) else Fail(TooDeep)
    decreases w, 0
  {
    hide ParseItem, Spelled, Numeral, WriteAll, Deepest, OneLine;
    match w
    case Simple(line) => OneLineReads('+' as int, line, t, depth);
    case Fault(line) => OneLineReads('-' as int, line, t, depth);
    case Number(value, plus, zeros) =>
      SpelledLine(value, plus, zeros);
      OneLineReads(':' as int, Spelled(value, plus, zeros), t, depth);
    case Bulk(bytes, x, y) => BulkTextReads(bytes, x, y, t, depth);
    case NoBulk(below) => NoBulkReads(below, t, depth);
    case NoList(below) => NoListReads(below, t, depth);
    case List(items) => ListReads(items, t, depth);
  }

  lemma {:induction false} ListReads(items: seq<Wire>, t: seq<byte>, depth: nat)
    requires (forall i :: 0 <= i < |items| ==> Writable(items[i])) && depth <= 8
    ensures ParseItem(Write(List(items)) + t, depth)
      == if depth + 1 + Deepest(items) <= 8 then Done(Array(Meanings(items)), t) else Fail(TooDeep)
    decreases items, 2
  {
    hide ParseItem, Numeral, WriteAll, Deepest, Writable, Meanings, ParseItems;
    var body := WriteAll(items) + t;
    assert Write(List(items)) + t == ['*' as int] + Numeral(|items|) + [13, 10] + body;
    HeaderReads(|items|, body, depth);
    if depth < 8 {
      ItemsRead(items, t, depth + 1);
      assert [] + Meanings(items) == Meanings(items);
    }
  }

  lemma {:induction false} ItemsRead(ws: seq<Wire>, t: seq<byte>, depth: nat)
    requires (forall i :: 0 <= i < |ws| ==> Writable(ws[i])) && depth <= 8
    ensures ParseItems(WriteAll(ws) + t, |ws|, depth) == if depth + Deepest(ws) <= 8 then Done(Meanings(ws), t) else Fail(TooDeep)
    decreases ws, 1
  {
    hide ParseItem, Write, Writable, Depth, Meaning;
    if ws == [] {
      assert WriteAll(ws) + t == t;
    } else {
      var rest := WriteAll(ws[1..]) + t;
      assert WriteAll(ws) + t == Write(ws[0]) + rest;
      WriteReads(ws[0], rest, depth);
      ItemsRead(ws[1..], t, depth);
    }
  }

  // ----- Whole streams -----

  /** Texts that nest no deeper than the stack allows, and anything behind them, in any chunks: their values come first. */
  lemma {:induction false} TextsRead(ws: seq<Wire>, t: seq<byte>, chunks: seq<seq<byte>>)
    requires Flatten(chunks) == WriteAll(ws) + t
    requires forall i :: 0 <= i < |ws| ==> Writable(ws[i]) && Depth(ws[i]) <= 8
    ensures Run(INITIAL, chunks) == Prepend(Meanings(ws), ParseStream(t))
  {
    hide Run, ParseStream, WriteAll, Meanings, Writable, Depth;
    RunRefinesParser(chunks);
    StreamReads(ws, t);
  }

  lemma {:induction false} StreamReads(ws: seq<Wire>, t: seq<byte>)
    requires forall i :: 0 <= i < |ws| ==> Writable(ws[i]) && Depth(ws[i]) <= 8
    ensures ParseStream(WriteAll(ws) + t) == Prepend(Meanings(ws), ParseStream(t))
    decreases |ws|
  {
    hide ParseItem, Write, Writable, Depth, Meaning;
    if ws == [] {
      assert WriteAll(ws) + t == t && [] + ParseStream(t).replies == ParseStream(t).replies;
    } else {
      var rest := WriteAll(ws[1..]) + t;
      assert WriteAll(ws) + t == Write(ws[0]) + rest;
      WriteReads(ws[0], rest, 0);
      StreamReads(ws[1..], t);
      var st := ParseStream(t);
      assert [Meaning(ws[0])] + (Meanings(ws[1..]) + st.replies) == [Meaning(ws[0])] + Meanings(ws[1..]) + st.replies;
    }
  }

  // ----- Commands are such texts -----

  /** The text of a command: a list of bulk strings, each ended by a CR LF. */
  function Bulks(args: seq<seq<byte>>): (ws: seq<Wire>)
    ensures |ws| == |args|
  {
    if args == [] then [] else [Bulk(args[0], 13, 10)] + Bulks(args[1..])
  }

  lemma {:induction false} BulksText(args: seq<seq<byte>>)
    ensures RespFormat.Bulks(args) == WriteAll(Bulks(args))
  {
    if args != [] {
      BulksText(args[1..]);
    }
  }

  /** What the command formatter writes is, byte by byte, the list of the arguments. */
  lemma CommandText(args: seq<seq<byte>>)
    ensures RespFormat.Command(args) == Write(List(Bulks(args)))
  {
    hide RespFormat.Bulks, WriteAll, Bulks, Numeral;
    BulksText(args);
  }
}
