/**
 What the printer writes, as a text of the grammar: where its blanks are, formatted or not, and how its strings are
 escaped. So every printed value is a JSON text by RFC 8259, and it stands for the value.
 */
module JsonLayout {
  import opened Bytes
  import opened Decimal
  import opened JsonSpec
  import opened JsonUnicode
  import opened JsonRoundTrip
  import opened JsonText

  /** A line feed and so many tabs, in formatted text. */
  function NewLine(depth: nat, fmt: bool): seq<byte> {
    if fmt then [10] + Indent(depth) else []
  }

  function Indent(n: nat): seq<byte> {
    if n == 0 then [] else [9] + Indent(n - 1)
  }

  lemma {:induction false} IndentIs(n: nat)
    ensures Indent(n) == Tabs(n)
  {
    if n > 0 {
      IndentIs(n - 1);
    }
  }

  lemma NewLineBlank(depth: nat, fmt: bool)
    ensures Blank(NewLine(depth, fmt))
  {
    IndentIs(depth);
    TabsBlank(depth);
  }

  /** The character a byte is written as: itself, a letter for a control character that has one, or \u00 and two lower-case digits. */
  function LayChar(b: byte): (c: Char)
    requires b != 0
    ensures CharOk(c)
  {
    if b == '\"' as int || b == '\\' as int then Short(b)
    else if b >= 32 then Plain(b)
    else if b == 8 then Short('b' as int)
    else if b == 9 then Short('t' as int)
    else if b == 10 then Short('n' as int)
    else if b == 12 then Short('f' as int)
    else if b == 13 then Short('r' as int)
    else Unit(b, Case(false, false, false, false))
  }

  ghost function LayChars(b: seq<byte>): (cs: seq<Char>)
    requires NUL !in b
    ensures CharsOk(cs)
  {
    if b == [] then [] else [LayChar(b[0])] + LayChars(b[1..])
  }

  /** A value laid out at some depth. */
  ghost function Lay(v: Json, depth: nat, fmt: bool): (x: Text)
    requires Printable(v)
    ensures TextOk(x)
    decreases v, 0
  {
    match v
    case Null => NullText
    case False => FalseText
    case True => TrueText
    case Number(m, _) => NumberText(Numb(m < 0, if m < 0 then -m else m, [], NoExp))
    case String(b) => StringText(LayChars(b))
    case Array(items) => ArrayText([], LayItems(items, depth + 1, fmt, true))
    case Object(members) =>
      NewLineBlank(depth, fmt);
      ObjectText(NewLine(depth, fmt), LayEntries(members, depth, fmt))
  }

  /** Items with a space before each but the first, in formatted text. */
  ghost function LayItems(items: seq<Json>, depth: nat, fmt: bool, first: bool): (r: seq<Item>)
    requires forall i :: 0 <= i < |items| ==> Printable(items[i])
    ensures |r| == |items| && forall i :: 0 <= i < |r| ==> ItemOk(r[i])
    decreases items, 1
  {
    if items == [] then []
    else [Item(if fmt && !first then [32] else [], Lay(items[0], depth, fmt), [])] + LayItems(items[1..], depth, fmt, false)
  }

  /** Members one level deeper, each on a line of its own, with a tab behind the colon, and the line of the closing brace. */
  ghost function LayEntries(members: seq<Member>, depth: nat, fmt: bool): (r: seq<Entry>)
    requires forall i :: 0 <= i < |members| ==> NUL !in members[i].key && Printable(members[i].value)
    ensures |r| == |members| && forall i :: 0 <= i < |r| ==> EntryOk(r[i])
    decreases members, 2
  {
    if members == [] then []
    else [LayEntry(members[0], depth, fmt, if |members| == 1 then NewLine(depth, fmt) else [])] + LayEntries(members[1..], depth, fmt)
  }

  ghost function LayEntry(m: Member, depth: nat, fmt: bool, after: seq<byte>): (e: Entry)
    requires NUL !in m.key && Printable(m.value) && (after == [] || after == NewLine(depth, fmt))
    ensures EntryOk(e) && e.after == after
    decreases m, 1
  {
    NewLineBlank(depth + 1, fmt);
    NewLineBlank(depth, fmt);
    Entry(NewLine(depth + 1, fmt), LayChars(m.key), [], if fmt then [9] else [], Lay(m.value, depth + 1, fmt), after)
  }

  // ----- The layout is what is printed -----

  lemma CharPrinted(b: byte)
    requires b != 0
    ensures WriteChar(LayChar(b)) == EscapeByte(b) && CharBytes(LayChar(b)) == [b]
  {
  }

  lemma {:induction false} CharsPrinted(b: seq<byte>)
    requires NUL !in b
    ensures WriteChars(LayChars(b)) == Escape(b) && CharsBytes(LayChars(b)) == b
  {
    hide WriteChar, CharBytes, EscapeByte, LayChar;
    if b != [] {
      CharPrinted(b[0]);
      CharsPrinted(b[1..]);
      assert LayChars(b)[1..] == LayChars(b[1..]);
      assert [b[0]] + b[1..] == b;
    }
  }

  lemma NumberPrinted(m: int)
    ensures var x := Numb(m < 0, if m < 0 then -m else m, [], NoExp);
      WriteNumb(x) == SignedNumeral(m) && NumbValue(x) == Json.Number(m, 0)
  {
    hide Numeral;
    var n := if m < 0 then -m else m;
    assert [] + Numeral(n) + [] + [] == Numeral(n);
    assert ['-' as int] + Numeral(n) + [] + [] == ['-' as int] + Numeral(n);
    assert n * 1 + 0 == n;
  }

  /** What is printed is the layout, and the layout stands for the value. */
  lemma {:induction false} PrintsText(v: Json, depth: nat, fmt: bool)
    requires Printable(v)
    ensures Write(Lay(v, depth, fmt)) == PrintValue(v, depth, fmt) && Meaning(Lay(v, depth, fmt)) == v
    decreases v, 0
  {
    hide LayItems, LayEntries, WriteItems, WriteEntries, PrintItems, PrintMembers, ItemValues, EntryValues, NewLine, Tabs,
      WriteNumb, NumbValue, SignedNumeral, LayChars, WriteChars, CharsBytes, Escape;
    match v
    case Number(m, _) => NumberPrinted(m);
    case String(b) => CharsPrinted(b);
    case Array(items) => ArrayPrinted(items, depth, fmt);
    case Object(members) => ObjectPrinted(members, depth, fmt);
    case _ =>
  }

  lemma {:induction false} ArrayPrinted(items: seq<Json>, depth: nat, fmt: bool)
    requires forall i :: 0 <= i < |items| ==> Printable(items[i])
    ensures var v := Array(items);
      Write(Lay(v, depth, fmt)) == PrintValue(v, depth, fmt) && Meaning(Lay(v, depth, fmt)) == v
    decreases items, 3
  {
    hide LayItems, WriteItems, PrintItems, ItemValues;
    if items == [] {
      NoItems(depth + 1, fmt);
      NoItemValues();
      assert |LayItems([], depth + 1, fmt, true)| == 0;
    } else {
      ItemsPrinted(items, depth + 1, fmt, true);
    }
  }

  lemma {:induction false} ItemsPrinted(items: seq<Json>, depth: nat, fmt: bool, first: bool)
    requires items != [] && forall i :: 0 <= i < |items| ==> Printable(items[i])
    ensures var laid := LayItems(items, depth, fmt, first);
      && WriteItems(laid) == (if fmt && !first then [32] else []) + PrintItems(items, depth, fmt)
      && ItemValues(laid) == items
    decreases items, 2
  {
    hide Write, Meaning, Lay, PrintValue;
    var laid := LayItems(items, depth, fmt, first);
    PrintsText(items[0], depth, fmt);
    assert laid[0].value == Lay(items[0], depth, fmt);
    ItemTextParts(laid);
    ItemValuesFirst(laid);
    ItemsParts(items, depth, fmt);
    var text := PrintValue(items[0], depth, fmt);
    if |items| == 1 {
      assert text + [] == text && laid[0].before + text + [] == laid[0].before + text;
      assert [items[0]] == items;
    } else {
      ItemsPrinted(items[1..], depth, fmt, false);
      assert laid[1..] == LayItems(items[1..], depth, fmt, false);
      var rest := PrintItems(items[1..], depth, fmt);
      ItemsGlue(laid[0].before, text, if fmt then [32] else [], rest);
      assert [items[0]] + items[1..] == items;
    }
  }

  lemma ItemsGlue(before: seq<byte>, text: seq<byte>, gap: seq<byte>, rest: seq<byte>)
    ensures before + (text + []) + ([',' as int] + (gap + rest)) == before + (text + [',' as int] + gap + rest)
  {
  }

  lemma {:induction false} ObjectPrinted(members: seq<Member>, depth: nat, fmt: bool)
    requires forall i :: 0 <= i < |members| ==> NUL !in members[i].key && Printable(members[i].value)
    ensures var v := Object(members);
      Write(Lay(v, depth, fmt)) == PrintValue(v, depth, fmt) && Meaning(Lay(v, depth, fmt)) == v
    decreases members, 4
  {
    hide LayEntries, WriteEntries, PrintMembers, EntryValues, Tabs, Indent;
    IndentIs(depth);
    var nl, close := if fmt then [10] else [], if fmt then Tabs(depth) else [];
    if members == [] {
      NoMembers(depth + 1, fmt);
      NoItemValues();
      assert |LayEntries([], depth, fmt)| == 0;
      assert ['{' as int] + nl + [] + close == ['{' as int] + NewLine(depth, fmt);
    } else {
      MembersPrinted(members, depth, fmt);
      assert ['{' as int] + nl + PrintMembers(members, depth + 1, fmt) + close
          == ['{' as int] + (nl + PrintMembers(members, depth + 1, fmt) + close);
    }
  }

  lemma LaidFirst(members: seq<Member>, depth: nat, fmt: bool)
    requires members != [] && forall i :: 0 <= i < |members| ==> NUL !in members[i].key && Printable(members[i].value)
    ensures var laid, m := LayEntries(members, depth, fmt), members[0];
      && NUL !in m.key && Printable(m.value)
      && laid[0] == LayEntry(m, depth, fmt, if |members| == 1 then NewLine(depth, fmt) else [])
      && laid[1..] == LayEntries(members[1..], depth, fmt)
  {
    hide LayEntry, NewLine, EntryOk;
  }

  lemma {:induction false} MembersPrinted(members: seq<Member>, depth: nat, fmt: bool)
    requires members != [] && forall i :: 0 <= i < |members| ==> NUL !in members[i].key && Printable(members[i].value)
    ensures var laid, nl, close := LayEntries(members, depth, fmt), if fmt then [10] else [], if fmt then Tabs(depth) else [];
      && WriteEntries(laid) == nl + PrintMembers(members, depth + 1, fmt) + close
      && EntryValues(laid) == members
    decreases members, 3
  {
    hide Write, Meaning, CharsBytes, LayEntry, LayEntries, PrintMember, PrintMembers, WriteEntry, WriteEntries, EntryValues, NewLine, Tabs;
    hide EntryOk, Printable;
    var laid, nl, close := LayEntries(members, depth, fmt), if fmt then [10] else [], if fmt then Tabs(depth) else [];
    var m := members[0];
    EntriesParts(laid);
    EntryValuesFirst(laid);
    LaidFirst(members, depth, fmt);
    MembersText(members, depth + 1, fmt, close);
    EntryPrinted(m, depth, fmt, if |members| == 1 then NewLine(depth, fmt) else []);
    NewLineIs(depth, fmt);
    var all, text := PrintMembers(members, depth + 1, fmt), PrintMember(m, depth + 1, fmt);
    if |members| == 1 {
      LastGlue(nl, all, close, text);
      assert [m] == members;
    } else {
      MembersPrinted(members[1..], depth, fmt);
      MembersGlue(nl, all, close, text, PrintMembers(members[1..], depth + 1, fmt));
      assert [m] + members[1..] == members;
    }
  }

  lemma LastGlue(nl: seq<byte>, all: seq<byte>, close: seq<byte>, text: seq<byte>)
    requires all + close == text + (nl + close)
    ensures nl + all + close == nl + text + (nl + close) + []
  {
    assert nl + all + close == nl + (all + close);
  }

  lemma MembersGlue(nl: seq<byte>, all: seq<byte>, close: seq<byte>, text: seq<byte>, rest: seq<byte>)
    requires all + close == text + ([',' as int] + (nl + (rest + close)))
    ensures nl + all + close == nl + text + [] + ([',' as int] + (nl + rest + close))
  {
    assert nl + all + close == nl + (all + close);
  }

  lemma NewLineIs(depth: nat, fmt: bool)
    ensures NewLine(depth, fmt) == (if fmt then [10] else []) + (if fmt then Tabs(depth) else [])
  {
    IndentIs(depth);
  }

  lemma {:induction false} EntryPrinted(m: Member, depth: nat, fmt: bool, after: seq<byte>)
    requires NUL !in m.key && Printable(m.value) && (after == [] || after == NewLine(depth, fmt))
    ensures var e := LayEntry(m, depth, fmt, after);
      && WriteEntry(e) == (if fmt then [10] else []) + PrintMember(m, depth + 1, fmt) + after
      && Member(CharsBytes(e.key), Meaning(e.value)) == m
    decreases m, 2
  {
    hide Write, WriteChars, Escape, Meaning, CharsBytes, Lay, LayChars, NewLine, Tabs, PrintValue, Blank;
    CharsPrinted(m.key);
    PrintsText(m.value, depth + 1, fmt);
    NewLineIs(depth + 1, fmt);
    EntryGlue(if fmt then [10] else [], if fmt then Tabs(depth + 1) else [], PrintString(m.key), if fmt then [9] else [],
              PrintValue(m.value, depth + 1, fmt), after);
  }

  lemma EntryGlue(nl: seq<byte>, tabs: seq<byte>, key: seq<byte>, gap: seq<byte>, value: seq<byte>, after: seq<byte>)
    ensures nl + tabs + (key + ([] + ([':' as int] + (gap + (value + after)))))
         == nl + (tabs + key + [':' as int] + gap + value) + after
  {
  }
}
