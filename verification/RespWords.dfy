/**
 What a format string means, word by word: literal bytes, %s, %b and %%, in any mix, with spaces between the words.
 The arguments of the command are the words, each the bytes it spells out.
 */
module RespWords {
  import opened Bytes
  import opened RespFormat

  /** A piece of a word: a byte, an argument to interpolate, a doubled %, or a single % that ends the whole format. */
  datatype Bit = Lit(b: byte) | Sub(arg: VarArg) | Percent | Last

  predicate BitOk(bit: Bit) {
    bit.Lit? ==> bit.b != ' ' as int && bit.b != '%' as int
  }

  /** How a piece is written in the format. */
  function BitText(bit: Bit): seq<byte> {
    match bit
    case Lit(b) => [b]
    case Sub(CStr(_)) => ['%' as int, 's' as int]
    case Sub(Bin(_)) => ['%' as int, 'b' as int]
    case Percent => ['%' as int, '%' as int]
    case Last => ['%' as int]
  }

  /** What it stands for. */
  function BitBytes(bit: Bit): seq<byte> {
    match bit
    case Lit(b) => [b]
    case Sub(arg) => arg.bytes
    case Percent => ['%' as int]
    case Last => ['%' as int]
  }

  function WordText(word: seq<Bit>): seq<byte> {
    if word == [] then [] else BitText(word[0]) + WordText(word[1..])
  }

  function WordBytes(word: seq<Bit>): seq<byte> {
    if word == [] then [] else BitBytes(word[0]) + WordBytes(word[1..])
  }

  /** The variadic arguments a word takes. */
  function WordArgs(word: seq<Bit>): seq<VarArg> {
    if word == [] then [] else (if word[0].Sub? then [word[0].arg] else []) + WordArgs(word[1..])
  }

  /** A word with so many spaces behind it. */
  datatype Entry = Entry(word: seq<Bit>, gap: nat)

  function Text(words: seq<Entry>): seq<byte> {
    if words == [] then [] else WordText(words[0].word) + (Spaces(words[0].gap) + Text(words[1..]))
  }

  function Args(words: seq<Entry>): seq<VarArg> {
    if words == [] then [] else WordArgs(words[0].word) + Args(words[1..])
  }

  function Values(words: seq<Entry>): (vs: seq<seq<byte>>)
    ensures |vs| == |words|
    ensures forall i :: 0 <= i < |words| ==> vs[i] == WordBytes(words[i].word)
  {
    if words == [] then [] else [WordBytes(words[0].word)] + Values(words[1..])
  }

  /** Pieces of a word; the single % only at its end, and only if nothing follows the word. */
  ghost predicate WordOk(word: seq<Bit>, last: bool) {
    forall i :: 0 <= i < |word| ==> BitOk(word[i]) && (word[i].Last? ==> last && i == |word| - 1)
  }

  /** Words of at least one piece, with a space or more between each two. */
  ghost predicate WordsOk(words: seq<Entry>) {
    forall i :: 0 <= i < |words| ==>
      && words[i].word != [] && WordOk(words[i].word, i == |words| - 1 && words[i].gap == 0)
      && (i < |words| - 1 ==> words[i].gap > 0)
  }

  /** One chunk per piece. */
  function Chunks(word: seq<Bit>): seq<Piece> {
    if word == [] then [] else [Chunk(BitBytes(word[0]))] + Chunks(word[1..])
  }

  lemma BitTemplate(bit: Bit, f: seq<byte>, ap: seq<VarArg>)
    requires FormatOk(f, ap) && BitOk(bit) && (bit.Last? ==> f == [])
    ensures var bp := (if bit.Sub? then [bit.arg] else []) + ap;
      FormatOk(BitText(bit) + f, bp) && Template(BitText(bit) + f, bp) == [Chunk(BitBytes(bit))] + Template(f, ap)
  {
    var s, bp := BitText(bit) + f, (if bit.Sub? then [bit.arg] else []) + ap;
    if bit.Sub? {
      assert s[2..] == f && bp[1..] == ap;
    } else {
      assert bp == ap;
      assert if bit.Percent? then s[2..] == f else s[1..] == f;
    }
  }

  lemma {:induction false} WordTemplate(word: seq<Bit>, f: seq<byte>, ap: seq<VarArg>)
    requires FormatOk(f, ap) && WordOk(word, f == [])
    ensures var s, bp := WordText(word) + f, WordArgs(word) + ap;
      FormatOk(s, bp) && Template(s, bp) == Chunks(word) + Template(f, ap)
  {
    hide FormatOk, Template, BitText, BitBytes, BitOk;
    if word == [] {
      assert WordText(word) + f == f && WordArgs(word) + ap == ap && Chunks(word) + Template(f, ap) == Template(f, ap);
    } else {
      var bit, rest := word[0], word[1..];
      WordTemplate(rest, f, ap);
      assert bit.Last? ==> rest == [] && WordText(rest) + f == [];
      BitTemplate(bit, WordText(rest) + f, WordArgs(rest) + ap);
      var arg := if bit.Sub? then [bit.arg] else [];
      assert BitText(bit) + (WordText(rest) + f) == WordText(word) + f;
      assert arg + (WordArgs(rest) + ap) == WordArgs(word) + ap;
      assert [Chunk(BitBytes(bit))] + (Chunks(rest) + Template(f, ap)) == Chunks(word) + Template(f, ap);
    }
  }

  lemma {:induction false} ChunksJoin(word: seq<Bit>, ps: seq<Piece>)
    requires ps == [] || ps[0].Gap?
    ensures Join(Chunks(word) + ps) == WordBytes(word) && Run0(Chunks(word) + ps) == |Chunks(word)|
  {
    var qs := Chunks(word) + ps;
    if word == [] {
      assert qs == ps;
    } else {
      assert qs[1..] == Chunks(word[1..]) + ps;
      ChunksJoin(word[1..], ps);
    }
  }

  lemma ChunksWord(word: seq<Bit>, ps: seq<Piece>)
    requires word != [] && (ps == [] || ps[0].Gap?)
    ensures Words(Chunks(word) + ps) == [WordBytes(word)] + Words(ps)
  {
    hide Join, Run0, WordBytes;
    ChunksJoin(word, ps);
    var qs := Chunks(word) + ps;
    assert qs[0] == Chunk(BitBytes(word[0])) && qs[|Chunks(word)|..] == ps;
  }

  /**
   The arguments of a command given by a format are exactly its words: the literal bytes, the bytes interpolated and
   a % for each %%, joined, whatever spaces the interpolated bytes have. A % at the very end stands for itself.
   */
  lemma {:induction false} WordsRead(lead: nat, words: seq<Entry>)
    requires WordsOk(words)
    ensures FormatOk(Spaces(lead) + Text(words), Args(words))
    ensures Words(Template(Spaces(lead) + Text(words), Args(words))) == Values(words)
  {
    hide FormatOk, Template, Words, WordsOk;
    TextReads(words);
    SpacesTemplate(lead, Text(words), Args(words));
    GapsWords(lead, Template(Text(words), Args(words)));
  }

  lemma {:induction false} TextReads(words: seq<Entry>)
    requires WordsOk(words)
    ensures FormatOk(Text(words), Args(words)) && Words(Template(Text(words), Args(words))) == Values(words)
  {
    hide FormatOk, Words, WordOk, WordText, WordBytes, WordArgs;
    if words == [] {
      NoWords();
      EmptyFormat();
    } else {
      hide Template;
      var first, rest := words[0], words[1..];
      assert WordsOk(rest);
      TextReads(rest);
      var f, ap := Text(rest), Args(rest);
      SpacesTemplate(first.gap, f, ap);
      LastEmpty(words);
      WordTemplate(first.word, Spaces(first.gap) + f, ap);
      var ps := Template(f, ap);
      GapsWords(first.gap, ps);
      EmptyFormat();
      ChunksWord(first.word, Gaps(first.gap) + ps);
      assert Chunks(first.word) + (Gaps(first.gap) + ps) == Template(Text(words), Args(words));
    }
  }

  lemma EmptyFormat()
    ensures FormatOk([], []) && Template([], []) == []
  {
  }

  lemma LastEmpty(words: seq<Entry>)
    requires WordsOk(words) && words != []
    ensures WordOk(words[0].word, Spaces(words[0].gap) + Text(words[1..]) == [])
  {
    if |words| == 1 && words[0].gap == 0 {
      assert Spaces(words[0].gap) + Text(words[1..]) == [];
    }
  }
}
