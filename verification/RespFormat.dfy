/**
 The command formatter: two ways to build a command, both sizing the buffer before they write
 it, and the proof that what they write is read back as the very same arguments.
 */
module RespFormat {
  import opened Bytes
  import opened Decimal
  import opened Memory
  import opened RespSpec
  import opened RespRuns

  const CRLF: seq<byte> := [CR, LF]

  // ----- What a command looks like -----

  function BulkHeader(n: nat): seq<byte> {
    ['$' as int] + Numeral(n) + CRLF
  }

  function Bulk(arg: seq<byte>): seq<byte> {
    BulkHeader(|arg|) + arg + CRLF
  }

  function Bulks(args: seq<seq<byte>>): seq<byte> {
    if args == [] then [] else Bulk(args[0]) + Bulks(args[1..])
  }

  function CountHeader(argc: nat): seq<byte> {
    ['*' as int] + Numeral(argc) + CRLF
  }

  function Command(args: seq<seq<byte>>): seq<byte> {
    CountHeader(|args|) + Bulks(args)
  }

  lemma {:induction false} BulksLast(args: seq<seq<byte>>)
    requires args != []
    ensures Bulks(args) == Bulks(args[..|args| - 1]) + Bulk(args[|args| - 1])
  {
    var n := |args| - 1;
    if n > 0 {
      BulksLast(args[1..]);
      assert args[1..][..n - 1] == args[..n][1..];
      var a, b, c := Bulk(args[0]), Bulks(args[1..][..n - 1]), Bulk(args[n]);
      assert a + (b + c) == a + b + c;
    } else {
      assert args == [args[0]];
    }
  }

  // ----- Sizes -----

  /** Bytes needed for an integer. */
  method IntLen(i0: int) returns (len: nat)
    ensures len == |SignedNumeral(i0)|
  {
    var i := i0;
    len := 0;
    if i < 0 {
      len := len + 1;
      i := -i;
    }
    ghost var sign, n := len, i;
    len := len + 1;
    i := i / 10;
    while i != 0
      invariant 0 <= i
      invariant sign + |Numeral(n)| == len + if i == 0 then 0 else |Numeral(i)|
    {
      len := len + 1;
      i := i / 10;
    }
  }

  method BulkLen(len: nat) returns (r: nat)
    ensures forall arg: seq<byte> :: |arg| == len ==> r == |Bulk(arg)|
  {
    var digits := IntLen(len);
    r := 1 + digits + 2 + len + 2;
  }

  // ----- Writing -----

  method PutBulk(cmd: array<byte>, pos: nat, arg: seq<byte>) returns (next: nat)
    requires pos + |Bulk(arg)| <= cmd.Length
    modifies cmd
    ensures next == pos + |Bulk(arg)|
    ensures cmd[..next] == old(cmd[..pos]) + Bulk(arg)
  {
    ghost var before := cmd[..pos];
    next := Put(cmd, pos, BulkHeader(|arg|));
    next := Put(cmd, next, arg);
    next := Put(cmd, next, CRLF);
    assert before + BulkHeader(|arg|) + arg + CRLF == before + Bulk(arg);
  }

  /** Writes the header and the bulks; the size computed beforehand is exact. */
  lemma NoBulks()
    ensures Bulks([]) == []
  {
  }

  method Build(args: seq<seq<byte>>, totlen: nat) returns (cmd: array<byte>)
    requires totlen == |Command(args)|
    ensures fresh(cmd) && cmd.Length == totlen + 1
    ensures cmd[..totlen] == Command(args) && cmd[totlen] == NUL
  {
    hide Bulks, Bulk, CountHeader;
    cmd := new byte[totlen + 1];
    var pos := Put(cmd, 0, CountHeader(|args|));
    var j := 0;
    NoBulks();
    assert args[..0] == [];
    while j < |args|
      invariant 0 <= j <= |args| && 0 <= pos <= totlen
      invariant cmd[..pos] == CountHeader(|args|) + Bulks(args[..j])
    {
      BulksLast(args[..j + 1]);
      assert args[..j + 1][..j] == args[..j];
      BulksFit(args, j + 1);
      pos := PutBulk(cmd, pos, args[j]);
      j := j + 1;
    }
    assert args[..j] == args && |cmd[..pos]| == pos;
    assert pos == totlen;
    cmd[pos] := NUL;
  }

  lemma {:induction false} BulksFit(args: seq<seq<byte>>, j: nat)
    requires j <= |args|
    ensures |Bulks(args[..j])| <= |Bulks(args)|
    decreases |args| - j
  {
    if j < |args| {
      BulksLast(args[..j + 1]);
      assert args[..j + 1][..j] == args[..j];
      BulksFit(args, j + 1);
    } else {
      assert args[..j] == args;
    }
  }

  // ----- Arguments given as a vector -----

  ghost predicate VectorOk(argv: seq<seq<byte>>, argvlen: Option<seq<nat>>) {
    match argvlen
    case Some(lens) => |lens| == |argv| && forall j :: 0 <= j < |argv| ==> lens[j] <= |argv[j]|
    case None => forall j :: 0 <= j < |argv| ==> NUL in argv[j]
  }

  /** The bytes of one argument: as many as its length says, or up to its NUL. */
  function ArgBytes(argv: seq<seq<byte>>, argvlen: Option<seq<nat>>, j: nat): seq<byte>
    requires VectorOk(argv, argvlen) && j < |argv|
  {
    match argvlen
    case Some(lens) => argv[j][..lens[j]]
    case None => argv[j][..StrLen(argv[j])]
  }

  function VectorBytes(argv: seq<seq<byte>>, argvlen: Option<seq<nat>>): seq<seq<byte>>
    requires VectorOk(argv, argvlen)
  {
    seq(|argv|, j requires 0 <= j < |argv| => ArgBytes(argv, argvlen, j))
  }

  method FormatCommandArgv(argv: seq<seq<byte>>, argvlen: Option<seq<nat>>) returns (cmd: array<byte>, totlen: nat)
    requires VectorOk(argv, argvlen)
    ensures cmd.Length == totlen + 1 && cmd[..totlen] == Command(VectorBytes(argv, argvlen)) && cmd[totlen] == NUL
  {
    hide Bulks;
    ghost var args := VectorBytes(argv, argvlen);
    var digits := IntLen(|argv|);
    totlen := 1 + digits + 2;
    var j := 0;
    NoBulks();
    assert args[..0] == [];
    while j < |argv|
      invariant 0 <= j <= |argv|
      invariant totlen == |CountHeader(|argv|)| + |Bulks(args[..j])|
    {
      var len := if argvlen.Some? then argvlen.value[j] else StrLen(argv[j]);
      var size := BulkLen(len);
      BulksLast(args[..j + 1]);
      assert args[..j + 1][..j] == args[..j];
      assert |args[j]| == len;
      totlen := totlen + size;
      j := j + 1;
    }
    assert args[..j] == args;
    cmd := Build(VectorBytes(argv, argvlen), totlen);
  }

  // ----- Arguments given by a format string -----

  /** A variadic argument: the C string of a %s, or the pointer and length of a %b. */
  datatype VarArg = CStr(bytes: seq<byte>) | Bin(bytes: seq<byte>)

  /** A piece of a template: bytes of an argument, or a space between arguments. */
  datatype Piece = Chunk(bytes: seq<byte>) | Gap

  predicate Directive(format: seq<byte>) {
    |format| >= 2 && format[0] == '%' as int
  }

  /** The format uses %s, %b and %% only, and the arguments are there. */
  predicate FormatOk(format: seq<byte>, ap: seq<VarArg>)
    decreases |format|
  {
    if format == [] then true
    else if !Directive(format) then FormatOk(format[1..], ap)
    else if format[1] == 's' as int then ap != [] && ap[0].CStr? && FormatOk(format[2..], ap[1..])
    else if format[1] == 'b' as int then ap != [] && ap[0].Bin? && FormatOk(format[2..], ap[1..])
    else format[1] == '%' as int && FormatOk(format[2..], ap)
  }

  /** The template a format and its arguments stand for. */
  function Template(format: seq<byte>, ap: seq<VarArg>): seq<Piece>
    requires FormatOk(format, ap)
    decreases |format|
  {
    if format == [] then []
    else if !Directive(format) then
      [if format[0] == SPACE then Gap else Chunk([format[0]])] + Template(format[1..], ap)
    else if format[1] == '%' as int then [Chunk(['%' as int])] + Template(format[2..], ap)
    else [Chunk(ap[0].bytes)] + Template(format[2..], ap[1..])
  }

  /** Number of chunks before the first gap. */
  function Run0(ps: seq<Piece>): (n: nat)
    ensures n <= |ps|
  {
    if ps == [] || ps[0].Gap? then 0 else Run0(ps[1..]) + 1
  }

  function Join(ps: seq<Piece>): seq<byte> {
    if ps == [] || ps[0].Gap? then [] else ps[0].bytes + Join(ps[1..])
  }

  /** The arguments of a template: its maximal runs of chunks, each joined. */
  function Words(ps: seq<Piece>): seq<seq<byte>>
    decreases |ps|
  {
    if |ps| == 0 then []
    else if ps[0].Gap? then Words(ps[1..])
    else [Join(ps)] + Words(ps[Run0(ps)..])
  }

  /** The arguments when cur has been collected already for the current one. */
  function WordsAfter(cur: seq<byte>, touched: bool, ps: seq<Piece>): seq<seq<byte>> {
    if touched then [cur + Join(ps)] + Words(ps[Run0(ps)..]) else Words(ps)
  }

  lemma WordsAfterChunk(cur: seq<byte>, touched: bool, b: seq<byte>, ps: seq<Piece>)
    requires touched || cur == []
    ensures WordsAfter(cur, touched, [Chunk(b)] + ps) == WordsAfter(cur + b, true, ps)
  {
    var qs := [Chunk(b)] + ps;
    assert qs[1..] == ps;
    assert qs[Run0(qs)..] == ps[Run0(ps)..];
    assert cur + (b + Join(ps)) == cur + b + Join(ps);
    assert [] + b == b;
  }

  lemma WordsAfterGap(cur: seq<byte>, touched: bool, ps: seq<Piece>)
    ensures WordsAfter(cur, touched, [Gap] + ps) == (if touched then [cur] else []) + Words(ps)
  {
    var qs := [Gap] + ps;
    assert qs[1..] == ps && qs[0..] == qs;
    assert cur + [] == cur;
  }

  /** A finished word becomes one more argument, and its size one more term of the total. */
  method EndWord(curargv: seq<seq<byte>>, totlen0: nat, curarg: seq<byte>) returns (argv: seq<seq<byte>>, totlen: nat)
    requires totlen0 == |Bulks(curargv)|
    ensures argv == curargv + [curarg] && totlen == |Bulks(argv)|
  {
    argv := curargv + [curarg];
    BulksLast(argv);
    assert argv[..|curargv|] == curargv;
    var size := BulkLen(|curarg|);
    totlen := totlen0 + size;
  }

  lemma NoWords()
    ensures Words([]) == []
  {
  }

  /** redisvFormatCommand over %s, %b, %% and literals. */
  method VFormatCommand(format: seq<byte>, ap0: seq<VarArg>) returns (cmd: array<byte>, totlen: nat)
    requires FormatOk(format, ap0)
    ensures cmd.Length == totlen + 1 && cmd[..totlen] == Command(Words(Template(format, ap0))) && cmd[totlen] == NUL
  {
    hide Words, Bulks;
    NoBulks();
    NoWords();
    ghost var want := Words(Template(format, ap0));
    var c, ap := 0, ap0;
    var curarg: seq<byte>, touched := [], false;
    var curargv: seq<seq<byte>> := [];
    totlen := 0;
    assert format[0..] == format;
    while c < |format|
      invariant 0 <= c <= |format| && FormatOk(format[c..], ap)
      invariant touched || curarg == []
      invariant want == curargv + WordsAfter(curarg, touched, Template(format[c..], ap))
      invariant totlen == |Bulks(curargv)|
    {
      ghost var rest := format[c..];
      assert Directive(rest) == (format[c] == '%' as int && c + 1 != |format|);
      if format[c] != '%' as int || c + 1 == |format| {
        assert rest[1..] == format[c + 1..];
        ghost var tail := Template(rest[1..], ap);
        if format[c] == SPACE {
          WordsAfterGap(curarg, touched, tail);
          if touched {
            assert curargv + ([curarg] + Words(tail)) == curargv + [curarg] + Words(tail);
            curargv, totlen := EndWord(curargv, totlen, curarg);
            curarg, touched := [], false;
          } else {
            assert [] + Words(tail) == Words(tail);
          }
        } else {
          WordsAfterChunk(curarg, touched, [format[c]], tail);
          curarg, touched := curarg + [format[c]], true;
        }
      } else {
        assert rest[2..] == format[c + 2..];
        var arg;
        if format[c + 1] == 's' as int || format[c + 1] == 'b' as int {
          arg, ap := ap[0].bytes, ap[1..];
        } else {
          arg := ['%' as int];
        }
        WordsAfterChunk(curarg, touched, arg, Template(rest[2..], ap));
        curarg, touched := curarg + arg, true;
        c := c + 1;
      }
      c := c + 1;
    }
    if touched {
      assert curarg + [] == curarg;
      curargv, totlen := EndWord(curargv, totlen, curarg);
    }
    assert curargv == want;
    var digits := IntLen(|curargv|);
    totlen := totlen + 1 + digits + 2;
    cmd := Build(curargv, totlen);
  }

  // ----- The number of arguments -----

  /** Words sees only where the gaps are. */
  lemma {:induction false} WordsShape(ps: seq<Piece>, qs: seq<Piece>)
    requires |ps| == |qs| && forall i :: 0 <= i < |ps| ==> ps[i].Gap? == qs[i].Gap?
    ensures |Words(ps)| == |Words(qs)| && Run0(ps) == Run0(qs)
    decreases |ps|
  {
    if ps != [] {
      WordsShape(ps[1..], qs[1..]);
      if !ps[0].Gap? {
        WordsShape(ps[Run0(ps)..], qs[Run0(qs)..]);
      }
    }
  }

  lemma {:induction false} TemplateShape(format: seq<byte>, ap: seq<VarArg>, bp: seq<VarArg>)
    requires FormatOk(format, ap) && FormatOk(format, bp)
    ensures var ps, qs := Template(format, ap), Template(format, bp);
      |ps| == |qs| && forall i :: 0 <= i < |ps| ==> ps[i].Gap? == qs[i].Gap?
    decreases |format|
  {
    if format != [] {
      if !Directive(format) {
        TemplateShape(format[1..], ap, bp);
      } else if format[1] == '%' as int {
        TemplateShape(format[2..], ap, bp);
      } else {
        TemplateShape(format[2..], ap[1..], bp[1..]);
      }
    }
  }

  /** The number of arguments depends on the format alone: bytes of an argument are never split again. */
  lemma {:induction false} ArgumentCount(format: seq<byte>, ap: seq<VarArg>, bp: seq<VarArg>)
    requires FormatOk(format, ap) && FormatOk(format, bp)
    ensures |Words(Template(format, ap))| == |Words(Template(format, bp))|
  {
    TemplateShape(format, ap, bp);
    WordsShape(Template(format, ap), Template(format, bp));
  }

  function Spaces(n: nat): seq<byte> {
    if n == 0 then [] else [SPACE] + Spaces(n - 1)
  }

  /** The directive for a variadic argument. */
  function DirectiveOf(arg: VarArg): seq<byte> {
    ['%' as int, if arg.CStr? then 's' as int else 'b' as int]
  }

  /** A %s or a %b for each argument, with so many spaces behind each. */
  function Spaced(ap: seq<VarArg>, gaps: seq<nat>): seq<byte>
    requires |gaps| == |ap|
  {
    if ap == [] then [] else DirectiveOf(ap[0]) + (Spaces(gaps[0]) + Spaced(ap[1..], gaps[1..]))
  }

  function BytesOf(ap: seq<VarArg>): seq<seq<byte>> {
    if ap == [] then [] else [ap[0].bytes] + BytesOf(ap[1..])
  }

  function Gaps(n: nat): seq<Piece> {
    if n == 0 then [] else [Gap] + Gaps(n - 1)
  }

  lemma SpaceTemplate(f: seq<byte>, ap: seq<VarArg>)
    requires FormatOk(f, ap)
    ensures FormatOk([SPACE] + f, ap) && Template([SPACE] + f, ap) == [Gap] + Template(f, ap)
  {
    var s := [SPACE] + f;
    assert s[1..] == f;
  }

  lemma {:induction false} SpacesTemplate(n: nat, f: seq<byte>, ap: seq<VarArg>)
    requires FormatOk(f, ap)
    ensures FormatOk(Spaces(n) + f, ap) && Template(Spaces(n) + f, ap) == Gaps(n) + Template(f, ap)
    decreases n
  {
    hide FormatOk, Template;
    if n == 0 {
      assert [] + f == f && [] + Template(f, ap) == Template(f, ap);
    } else {
      SpacesTemplate(n - 1, f, ap);
      SpaceTemplate(Spaces(n - 1) + f, ap);
      assert [SPACE] + (Spaces(n - 1) + f) == Spaces(n) + f;
      assert [Gap] + (Gaps(n - 1) + Template(f, ap)) == Gaps(n) + Template(f, ap);
    }
  }

  lemma {:induction false} GapsWords(n: nat, ps: seq<Piece>)
    ensures Words(Gaps(n) + ps) == Words(ps)
    decreases n
  {
    var qs := Gaps(n) + ps;
    if n == 0 {
      assert qs == ps;
    } else {
      assert qs[1..] == Gaps(n - 1) + ps;
      GapsWords(n - 1, ps);
    }
  }

  /** A chunk with a gap or the end behind it is a word. */
  lemma ChunkWord(bytes: seq<byte>, ps: seq<Piece>)
    requires ps == [] || ps[0].Gap?
    ensures Words([Chunk(bytes)] + ps) == [bytes] + Words(ps)
  {
    var qs := [Chunk(bytes)] + ps;
    assert qs[1..] == ps && Run0(ps) == 0 && Run0(qs) == 1 && Join(ps) == [];
    assert bytes + [] == bytes;
  }

  lemma DirectiveTemplate(arg: VarArg, f: seq<byte>, ap: seq<VarArg>)
    requires FormatOk(f, ap)
    ensures FormatOk(DirectiveOf(arg) + f, [arg] + ap)
    ensures Template(DirectiveOf(arg) + f, [arg] + ap) == [Chunk(arg.bytes)] + Template(f, ap)
  {
    var s, bp := DirectiveOf(arg) + f, [arg] + ap;
    assert s[2..] == f && bp[1..] == ap;
  }

  /**
   Directives with one or more spaces between any two: each gives exactly the argument it interpolates, empty or
   not, whatever spaces its bytes have. The arguments are those of the other formatter.
   */
  lemma {:induction false} SpacedArguments(ap: seq<VarArg>, gaps: seq<nat>)
    requires |gaps| == |ap| && forall i :: 0 <= i < |ap| - 1 ==> gaps[i] > 0
    ensures FormatOk(Spaced(ap, gaps), ap) && Words(Template(Spaced(ap, gaps), ap)) == BytesOf(ap)
    decreases |ap|
  {
    hide Words;
    if ap == [] {
      NoWords();
    } else {
      var rest, tail := Spaced(ap[1..], gaps[1..]), ap[1..];
      SpacedArguments(tail, gaps[1..]);
      SpacesTemplate(gaps[0], rest, tail);
      assert [ap[0]] + tail == ap;
      DirectiveTemplate(ap[0], Spaces(gaps[0]) + rest, tail);
      var ps := Template(rest, tail);
      GapsWords(gaps[0], ps);
      assert |ap| == 1 ==> rest == [] && ps == [];
      ChunkWord(ap[0].bytes, Gaps(gaps[0]) + ps);
    }
  }

  // ----- What the reader makes of a command -----

  lemma {:induction false} DigitsScan(s: seq<byte>, v: int)
    requires AllDigits(s)
    ensures Digits(s, v) == Some(Scan(s, v))
    decreases |s|
  {
    if s != [] {
      DigitsScan(s[1..], v * 10 + s[0] - '0' as int);
    }
  }

  lemma NumeralLine(n: nat, t: seq<byte>)
    ensures LineNumber(Numeral(n)) == n
    ensures var s := Numeral(n) + CRLF + t;
      Crlf(s) == |Numeral(n)| && s[..|Numeral(n)|] == Numeral(n) && s[|Numeral(n)| + 2..] == t
  {
    NumeralDigits(n);
    DigitsScan(Numeral(n), 0);
    ScanNumeral(n);
    var s, k := Numeral(n) + CRLF + t, |Numeral(n)|;
    assert CrlfAt(s, k);
    assert forall i :: 0 <= i < k ==> IsDigit(s[i]) && !CrlfAt(s, i);
    var j := Crlf(s);
    assert j != -1 ==> CrlfAt(s, j);
  }

  function Strs(args: seq<seq<byte>>): seq<Reply> {
    seq(|args|, i requires 0 <= i < |args| => Str(args[i]))
  }

  lemma BulkReads(arg: seq<byte>, t: seq<byte>, depth: nat)
    requires depth <= MAX_DEPTH
    ensures ParseItem(Bulk(arg) + t, depth) == Done(Str(arg), t)
  {
    var body := arg + CRLF + t;
    var s := Bulk(arg) + t;
    assert s[1..] == Numeral(|arg|) + CRLF + body;
    NumeralLine(|arg|, body);
    assert body[..|arg|] == arg && body[|arg| + 2..] == t;
    assert ParseTyped(STRING, s[1..], depth) == BulkBody(|arg|, body);
  }

  lemma {:induction false} BulksRead(args: seq<seq<byte>>, t: seq<byte>, depth: nat)
    requires depth <= MAX_DEPTH
    ensures ParseItems(Bulks(args) + t, |args|, depth) == Done(Strs(args), t)
    decreases |args|
  {
    if args == [] {
      assert [] + t == t;
    } else {
      assert Bulks(args) + t == Bulk(args[0]) + (Bulks(args[1..]) + t);
      BulkReads(args[0], Bulks(args[1..]) + t, depth);
      BulksRead(args[1..], t, depth);
      assert Strs(args) == [Str(args[0])] + Strs(args[1..]);
    }
  }

  /** A command is read back as the array of its arguments, and nothing of what follows is touched. */
  lemma {:induction false} CommandReads(args: seq<seq<byte>>, t: seq<byte>)
    ensures ParseItem(Command(args) + t, 0) == Done(Array(Strs(args)), t)
  {
    var s, body := Command(args) + t, Bulks(args) + t;
    assert s[1..] == Numeral(|args|) + CRLF + body;
    NumeralLine(|args|, body);
    BulksRead(args, t, 1);
    assert ParseTyped(ARRAY, s[1..], 0) == ArrayBody(|args|, body, 0);
    assert [] + Strs(args) == Strs(args);
  }

  function Pipeline(commands: seq<seq<seq<byte>>>): seq<byte> {
    if commands == [] then [] else Command(commands[0]) + Pipeline(commands[1..])
  }

  /** What the reader gives for some commands: the array of the arguments of each. */
  function Arrays(commands: seq<seq<seq<byte>>>): seq<Reply> {
    if commands == [] then [] else [Array(Strs(commands[0]))] + Arrays(commands[1..])
  }

  /** The commands at the front of a stream are its first replies, and the rest of the stream is read as if it stood alone. */
  lemma {:induction false} PipelineReads(commands: seq<seq<seq<byte>>>, t: seq<byte>)
    ensures ParseStream(Pipeline(commands) + t) == Prepend(Arrays(commands), ParseStream(t))
    decreases |commands|
  {
    hide Command, Strs, ParseItem;
    if commands == [] {
      assert [] + t == t && [] + ParseStream(t).replies == ParseStream(t).replies;
    } else {
      var rest := Pipeline(commands[1..]) + t;
      assert Pipeline(commands) + t == Command(commands[0]) + rest;
      CommandReads(commands[0], rest);
      PipelineReads(commands[1..], t);
      var first := [Array(Strs(commands[0]))];
      assert first + (Arrays(commands[1..]) + ParseStream(t).replies) == Arrays(commands) + ParseStream(t).replies;
    }
  }

  lemma {:induction false} ArraysAt(commands: seq<seq<seq<byte>>>, k: nat)
    requires k < |commands|
    ensures |Arrays(commands)| == |commands| && Arrays(commands)[k] == Array(Strs(commands[k]))
  {
    if |commands| > 1 {
      ArraysAt(commands[1..], if k > 0 then k - 1 else 0);
    }
  }

  /**
   Commands written one after another, with anything behind them, and fed to the reader in any chunks come back
   as they were, and the reader goes on exactly where the last of them ends.
   */
  lemma {:induction false} RoundTrip(commands: seq<seq<seq<byte>>>, t: seq<byte>, chunks: seq<seq<byte>>)
    requires Flatten(chunks) == Pipeline(commands) + t
    ensures Run(INITIAL, chunks) == Prepend(Arrays(commands), ParseStream(t))
  {
    RunRefinesParser(chunks);
    PipelineReads(commands, t);
  }

  /** Reply number k is the array of the arguments of command number k. */
  lemma CommandAt(commands: seq<seq<seq<byte>>>, t: seq<byte>, chunks: seq<seq<byte>>, k: nat)
    requires Flatten(chunks) == Pipeline(commands) + t && k < |commands|
    ensures var replies := Run(INITIAL, chunks).replies;
      k < |replies| && replies[k] == Array(Strs(commands[k]))
  {
    hide Run, ParseStream, Pipeline;
    RoundTrip(commands, t, chunks);
    ArraysAt(commands, k);
  }
}
