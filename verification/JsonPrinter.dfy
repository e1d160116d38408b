/**
 The printer: every text is written into a buffer whose size is computed first. That the writes
 stay inside the buffers is checked at each of them.
 */
module JsonPrinter {
  import opened Bytes
  import opened Decimal
  import opened Memory
  import opened JsonSpec
  import opened JsonTree
  import opened JsonRoundTrip

  // ----- Strings -----

  lemma {:induction false} EscapeAppend(s: seq<byte>, b: byte)
    ensures Escape(s + [b]) == Escape(s) + EscapeByte(b)
    decreases |s|
  {
    if s == [] {
      assert [] + [b] == [b] && [b][1..] == [];
    } else {
      assert (s + [b])[1..] == s[1..] + [b];
      EscapeAppend(s[1..], b);
    }
  }

  predicate IsNamedEscape(b: byte) {
    b == QUOTE || b == BACKSLASH || b == 8 || b == 12 || b == 10 || b == 13 || b == 9
  }

  /** Length of the escaped string, without its quotes. */
  method EscapedLength(str: array<byte>, ghost s: seq<byte>) returns (len: nat)
    requires CStr(str, s)
    ensures len == |Escape(s)|
  {
    len := 0;
    var p := 0;
    assert s[..0] == [];
    while str[p] != NUL
      invariant 0 <= p <= |s| && len == |Escape(s[..p])|
      decreases |s| - p
    {
      assert p < |s| && str[p] == s[p];
      EscapeAppend(s[..p], s[p]);
      assert s[..p + 1] == s[..p] + [s[p]];
      len := len + 1;
      if IsNamedEscape(str[p]) {
        len := len + 1;
      } else if str[p] < 32 {
        len := len + 5;
      }
      p := p + 1;
    }
    assert p == |s| && s[..p] == s;
  }

  /** Writes one byte, escaped if need be. */
  method PutEscaped(out: array<byte>, q: nat, b: byte) returns (next: nat)
    requires q + |EscapeByte(b)| <= out.Length
    modifies out
    ensures next == q + |EscapeByte(b)| && out[..next] == old(out[..q]) + EscapeByte(b)
  {
    if b > 31 && b != QUOTE && b != BACKSLASH {
      next := Put(out, q, [b]);
    } else if b == BACKSLASH || b == QUOTE {
      next := Put(out, q, [BACKSLASH, b]);
    } else if b == 8 {
      next := Put(out, q, [BACKSLASH, 'b' as int]);
    } else if b == 12 {
      next := Put(out, q, [BACKSLASH, 'f' as int]);
    } else if b == 10 {
      next := Put(out, q, [BACKSLASH, 'n' as int]);
    } else if b == 13 {
      next := Put(out, q, [BACKSLASH, 'r' as int]);
    } else if b == 9 {
      next := Put(out, q, [BACKSLASH, 't' as int]);
    } else {
      next := Put(out, q, [BACKSLASH, 'u' as int, '0' as int, '0' as int, HexChar(b / 16), HexChar(b % 16)]);
    }
  }

  /** The quoted string; the buffer is filled to its last byte. */
  method PrintStringPtr(str: array<byte>, ghost s: seq<byte>) returns (out: array<byte>)
    requires CStr(str, s)
    ensures fresh(out) && CStr(out, PrintString(s)) && out.Length == |PrintString(s)| + 1
  {
    hide EscapeByte;
    var len := EscapedLength(str, s);
    out := new byte[len + 3];
    var q := Put(out, 0, [QUOTE]);
    var p := 0;
    assert s[..0] == [] && [QUOTE] + [] == [QUOTE];
    while str[p] != NUL
      invariant 0 <= p <= |s| && 0 <= q <= |PrintString(s)| && q == 1 + |Escape(s[..p])|
      invariant out[..q] == [QUOTE] + Escape(s[..p])
      invariant CStr(str, s)
      decreases |s| - p
    {
      assert p < |s| && str[p] == s[p];
      EscapeAppend(s[..p], s[p]);
      assert s[..p + 1] == s[..p] + [s[p]];
      EscapeGrows(s, p + 1);
      assert [QUOTE] + Escape(s[..p]) + EscapeByte(s[p]) == [QUOTE] + (Escape(s[..p]) + EscapeByte(s[p]));
      q := PutEscaped(out, q, str[p]);
      p := p + 1;
    }
    assert p == |s| && s[..p] == s;
    q := Put(out, q, [QUOTE]);
    out[q] := NUL;
    EscapeNoNul(s);
  }

  lemma {:induction false} EscapeGrows(s: seq<byte>, p: nat)
    requires p <= |s|
    ensures |Escape(s[..p])| <= |Escape(s)|
    decreases |s| - p
  {
    if p < |s| {
      EscapeAppend(s[..p], s[p]);
      assert s[..p + 1] == s[..p] + [s[p]];
      EscapeGrows(s, p + 1);
    } else {
      assert s[..p] == s;
    }
  }

  // ----- Sizes of arrays and objects -----

  /** What print_array counts for its entries. */
  function ItemsSize(items: seq<Json>, depth: nat, fmt: bool): nat {
    if items == [] then 0
    else |PrintValue(items[0], depth, fmt)| + 2 + (if fmt then 1 else 0) + ItemsSize(items[1..], depth, fmt)
  }

  /** What print_object counts for its entries. */
  function MembersSize(members: seq<Member>, depth: nat, fmt: bool): nat {
    if members == [] then 0
    else
      |PrintValue(members[0].value, depth, fmt)| + |PrintString(members[0].key)| + 2 + (if fmt then 2 + depth else 0)
      + MembersSize(members[1..], depth, fmt)
  }

  /** The buffer of print_array holds the brackets, the entries, the separators and the final NUL. */
  lemma {:induction false} ArrayFits(items: seq<Json>, depth: nat, fmt: bool)
    ensures |PrintItems(items, depth, fmt)| <= ItemsSize(items, depth, fmt)
    ensures |PrintValue(Array(items), depth, fmt)| + 1 <= 5 + ItemsSize(items, depth + 1, fmt)
    decreases |items|
  {
    ItemsFit(items, depth, fmt);
    ItemsFit(items, depth + 1, fmt);
  }

  lemma {:induction false} ItemsFit(items: seq<Json>, depth: nat, fmt: bool)
    ensures |PrintItems(items, depth, fmt)| <= ItemsSize(items, depth, fmt)
    decreases |items|
  {
    if items != [] {
      ItemsFit(items[1..], depth, fmt);
    }
  }

  lemma {:induction false} TabsLength(n: nat)
    ensures |Tabs(n)| == n
  {
    if n > 0 {
      TabsLength(n - 1);
    }
  }

  lemma {:induction false} MembersFit(members: seq<Member>, depth: nat, fmt: bool)
    ensures |PrintMembers(members, depth, fmt)| <= MembersSize(members, depth, fmt)
    decreases |members|
  {
    if members != [] {
      TabsLength(depth);
      MembersFit(members[1..], depth, fmt);
    }
  }

  /** The buffer of print_object holds the braces, line feeds, tabs, members, separators and the final NUL. */
  lemma ObjectFits(members: seq<Member>, depth: nat, fmt: bool)
    ensures |PrintValue(Object(members), depth, fmt)| + 1
         <= 7 + (if fmt then depth + 1 else 0) + MembersSize(members, depth + 1, fmt)
  {
    MembersFit(members, depth + 1, fmt);
    TabsLength(depth);
  }

  lemma {:induction false} ItemsSizeLast(items: seq<Json>, v: Json, depth: nat, fmt: bool)
    ensures ItemsSize(items + [v], depth, fmt)
         == ItemsSize(items, depth, fmt) + |PrintValue(v, depth, fmt)| + 2 + (if fmt then 1 else 0)
    decreases |items|
  {
    if items == [] {
      assert [] + [v] == [v] && [v][1..] == [];
    } else {
      assert (items + [v])[1..] == items[1..] + [v];
      ItemsSizeLast(items[1..], v, depth, fmt);
    }
  }

  lemma {:induction false} MembersSizeLast(members: seq<Member>, m: Member, depth: nat, fmt: bool)
    ensures MembersSize(members + [m], depth, fmt)
         == MembersSize(members, depth, fmt) + |PrintValue(m.value, depth, fmt)| + |PrintString(m.key)| + 2
            + (if fmt then 2 + depth else 0)
    decreases |members|
  {
    if members == [] {
      assert [] + [m] == [m] && [m][1..] == [];
    } else {
      assert (members + [m])[1..] == members[1..] + [m];
      MembersSizeLast(members[1..], m, depth, fmt);
    }
  }

  // ----- Values -----

  /** A fresh C string. */
  method Strdup(s: seq<byte>) returns (out: array<byte>)
    requires NUL !in s
    ensures fresh(out) && CStr(out, s)
  {
    out := new byte[|s| + 1];
    var n := Put(out, 0, s);
    out[n] := NUL;
  }

  /** A 32-bit integer takes at most eleven characters. */
  lemma NumeralFits(m: int)
    requires -0x8000_0000 <= m < 0x8000_0000
    ensures |SignedNumeral(m)| <= 11 && NUL !in SignedNumeral(m)
  {
    hide Numeral;
    assert Pow10(10) == 10000000000;
    hide Pow10;
    var n := if m < 0 then -m else m;
    NumeralLength(n, 10);
    NumeralDigits(n);
  }

  /** print_number. */
  method PrintNumber(item: CJson) returns (out: array<byte>)
    requires item.scale == 0 && -0x8000_0000 <= item.mantissa < 0x8000_0000
    requires item.valueint == Truncated(item.mantissa, item.scale)
    ensures fresh(out) && out.Length == 21 && CStr(out, SignedNumeral(item.mantissa))
  {
    hide SignedNumeral;
    out := new byte[21];
    NumeralFits(item.mantissa);
    assert Pow10(0) == 1;
    var q := Put(out, 0, SignedNumeral(item.valueint));
    out[q] := NUL;
  }

  method PrintNode(item: CJson, ghost v: Json, depth: nat, fmt: bool) returns (out: array<byte>)
    requires item.Denotes(v) && Printable(v)
    ensures fresh(out) && CStr(out, PrintValue(v, depth, fmt))
    decreases v, 3
  {
    PrintNoNul(v, depth, fmt);
    if item.ty == NULL {
      out := Strdup(NULL_TEXT);
    } else if item.ty == FALSE {
      out := Strdup(FALSE_TEXT);
    } else if item.ty == TRUE {
      out := Strdup(TRUE_TEXT);
    } else if item.ty == NUMBER {
      out := PrintNumber(item);
    } else if item.ty == STRING {
      out := PrintStringPtr(item.valuestring, v.bytes);
    } else if item.ty == ARRAY {
      out := PrintArray(item, v.items, depth, fmt);
    } else {
      out := PrintObject(item, v.members, depth, fmt);
    }
  }

  /** Number of children, by walking the list. */
  method CountChildren(item: CJson) returns (n: nat)
    requires item.Linked()
    ensures n == |item.kids|
  {
    var child := item.child;
    n := 0;
    while child != null
      invariant n <= |item.kids| && child == if n < |item.kids| then item.kids[n] else null
      decreases |item.kids| - n
    {
      assert child.next == if n + 1 < |item.kids| then item.kids[n + 1] else null;
      n := n + 1;
      child := child.next;
    }
  }

  /** A place in the list of children: the i-th child, or null after the last. */
  ghost predicate Place(item: CJson, i: nat, child: CJson?)
    reads item`kids
  {
    child == if i < |item.kids| then item.kids[i] else null
  }

  lemma ArrayStart(item: CJson, items: seq<Json>)
    requires item.Denotes(Array(items))
    ensures |item.kids| == |items| && item.Linked() && Place(item, 0, item.child)
  {
  }

  lemma ArrayChild(item: CJson, items: seq<Json>, i: nat)
    requires item.Denotes(Array(items)) && Printable(Array(items)) && i < |items|
    ensures |item.kids| == |items| && item.kids[i].Denotes(items[i]) && Printable(items[i])
    ensures Place(item, i + 1, item.kids[i].next)
  {
    assert item.Linked();
  }

  ghost predicate Texts(entries: seq<array<byte>>, items: seq<Json>, depth: nat, fmt: bool)
    reads set k | 0 <= k < |entries| :: entries[k]
  {
    |entries| == |items| && forall k :: 0 <= k < |entries| ==> CStr(entries[k], PrintValue(items[k], depth, fmt))
  }

  method PrintArray(item: CJson, ghost items: seq<Json>, depth: nat, fmt: bool) returns (out: array<byte>)
    requires item.Denotes(Array(items)) && Printable(Array(items))
    ensures fresh(out) && CStr(out, PrintValue(Array(items), depth, fmt))
    decreases items, 2
  {
    var numentries := CountChildren(item);
    var entries, len := PrintEntries(item, items, depth + 1, fmt);
    ArrayFits(items, depth, fmt);
    out := JoinEntries(entries, items, numentries, len, depth + 1, fmt);
    PrintNoNul(Array(items), depth, fmt);
  }

  /** Prints all children, adding up the size of the buffer. */
  method PrintEntries(item: CJson, ghost items: seq<Json>, depth: nat, fmt: bool)
    returns (entries: seq<array<byte>>, len: nat)
    requires item.Denotes(Array(items)) && Printable(Array(items))
    ensures Texts(entries, items, depth, fmt) && len == 5 + ItemsSize(items, depth, fmt)
    decreases items, 1
  {
    hide CJson.Denotes, CJson.Linked, Printable, PrintValue;
    entries, len := [], 5;
    var child := item.child;
    ghost var i := 0;
    ArrayStart(item, items);
    assert items[..0] == [];
    while child != null
      invariant 0 <= i <= |items| == |item.kids| && Place(item, i, child)
      invariant item.Denotes(Array(items))
      invariant Texts(entries, items[..i], depth, fmt)
      invariant len == 5 + ItemsSize(items[..i], depth, fmt)
      decreases |items| - i
    {
      ArrayChild(item, items, i);
      var ret := PrintNode(child, items[i], depth, fmt);
      var n := Strlen(ret, PrintValue(items[i], depth, fmt));
      ItemsSizeLast(items[..i], items[i], depth, fmt);
      assert items[..i + 1] == items[..i] + [items[i]];
      entries := entries + [ret];
      len := len + n + 2 + if fmt then 1 else 0;
      child := child.next;
      i := i + 1;
    }
    assert items[..i] == items;
  }

  /** What separates an array entry from the next one. */
  function Separator(last: bool, fmt: bool): seq<byte> {
    if last then [] else [',' as int] + (if fmt then [SPACE] else [])
  }

  /** strcpy of an entry, then its separator. */
  method PutEntry(out: array<byte>, ptr: nat, entry: array<byte>, ghost text: seq<byte>, last: bool, fmt: bool)
    returns (next: nat)
    requires out != entry && CStr(entry, text) && ptr + |text| + |Separator(last, fmt)| < out.Length
    modifies out
    ensures next == ptr + |text| + |Separator(last, fmt)|
    ensures out[..next] == old(out[..ptr]) + text + Separator(last, fmt)
  {
    var n := Strlen(entry, text);
    next := Put(out, ptr, entry[..n]);
    out[next] := NUL;
    if !last {
      next := Put(out, next, [',' as int]);
      if fmt {
        next := Put(out, next, [SPACE]);
      }
      out[next] := NUL;
    }
  }

  lemma ItemsText(items: seq<Json>, depth: nat, fmt: bool)
    requires items != []
    ensures PrintItems(items, depth, fmt)
         == PrintValue(items[0], depth, fmt) + Separator(|items| == 1, fmt) + PrintItems(items[1..], depth, fmt)
  {
    if |items| > 1 {
      var a, c := PrintValue(items[0], depth, fmt), [',' as int];
      var b: seq<byte> := if fmt then [SPACE] else [];
      assert a + c + b == a + (c + b);
    } else {
      var a := PrintValue(items[0], depth, fmt);
      assert a + [] + [] == a;
    }
  }

  /** Composes the output array. */
  method JoinEntries(entries: seq<array<byte>>, ghost items: seq<Json>, numentries: nat, len: nat, depth: nat, fmt: bool)
    returns (out: array<byte>)
    requires numentries == |entries| && Texts(entries, items, depth, fmt)
    requires |PrintItems(items, depth, fmt)| + 3 <= len
    ensures fresh(out) && out.Length == len
    ensures var text := ['[' as int] + PrintItems(items, depth, fmt) + [']' as int];
      |text| < len && out[..|text|] == text && out[|text|] == NUL
  {
    hide PrintItems, PrintValue, Separator, CStr;
    out := new byte[len];
    ghost var whole := ['[' as int] + PrintItems(items, depth, fmt);
    var ptr := Put(out, 0, ['[' as int]);
    out[ptr] := NUL;
    var i := 0;
    assert items[0..] == items;
    while i < numentries
      invariant 0 <= i <= numentries && 0 <= ptr
      invariant ptr + |PrintItems(items[i..], depth, fmt)| == |whole|
      invariant out[..ptr] + PrintItems(items[i..], depth, fmt) == whole
      invariant Texts(entries, items, depth, fmt)
    {
      ItemsText(items[i..], depth, fmt);
      assert items[i..][1..] == items[i + 1..];
      ghost var done, text, sep := out[..ptr], PrintValue(items[i], depth, fmt), Separator(i == numentries - 1, fmt);
      assert done + (text + sep + PrintItems(items[i + 1..], depth, fmt)) == done + text + sep + PrintItems(items[i + 1..], depth, fmt);
      ptr := PutEntry(out, ptr, entries[i], text, i == numentries - 1, fmt);
      i := i + 1;
    }
    NoItems(depth, fmt);
    assert items[i..] == [] && whole + [] == whole;
    ptr := Put(out, ptr, [']' as int]);
    out[ptr] := NUL;
  }

  // ----- Objects -----

  /** The keys and values of the members, printed. */
  ghost predicate MemberTexts(names: seq<array<byte>>, entries: seq<array<byte>>, members: seq<Member>, depth: nat, fmt: bool)
    reads set k | 0 <= k < |names| :: names[k], set k | 0 <= k < |entries| :: entries[k]
  {
    && |names| == |entries| == |members|
    && forall k :: 0 <= k < |members| ==>
      CStr(names[k], PrintString(members[k].key)) && CStr(entries[k], PrintValue(members[k].value, depth, fmt))
  }

  lemma ObjectStart(item: CJson, members: seq<Member>)
    requires item.Denotes(Object(members))
    ensures |item.kids| == |members| && item.Linked() && Place(item, 0, item.child)
  {
  }

  lemma ObjectChild(item: CJson, members: seq<Member>, i: nat)
    requires item.Denotes(Object(members)) && Printable(Object(members)) && i < |members|
    ensures |item.kids| == |members| && item.kids[i].Denotes(members[i].value) && Printable(members[i].value)
    ensures item.kids[i].Named(members[i].key, item.sub)
    ensures Place(item, i + 1, item.kids[i].next)
  {
    assert item.Linked();
  }

  method PrintObject(item: CJson, ghost members: seq<Member>, depth: nat, fmt: bool) returns (out: array<byte>)
    requires item.Denotes(Object(members)) && Printable(Object(members))
    ensures fresh(out) && CStr(out, PrintValue(Object(members), depth, fmt))
    decreases members, 2
  {
    hide CJson.Denotes, CJson.Linked, Printable, PrintValue;
    ObjectStart(item, members);
    var numentries := CountChildren(item);
    var names, entries, len := PrintMemberTexts(item, members, depth + 1, fmt);
    ObjectFits(members, depth, fmt);
    out := JoinMembers(names, entries, members, numentries, len, depth + 1, fmt);
    PrintNoNul(Object(members), depth, fmt);
  }

  /** Prints all keys and values, adding up the size of the buffer. */
  method PrintMemberTexts(item: CJson, ghost members: seq<Member>, depth: nat, fmt: bool)
    returns (names: seq<array<byte>>, entries: seq<array<byte>>, len: nat)
    requires item.Denotes(Object(members)) && Printable(Object(members))
    ensures MemberTexts(names, entries, members, depth, fmt)
    ensures len == 7 + (if fmt then depth else 0) + MembersSize(members, depth, fmt)
    decreases members, 1
  {
    hide CJson.Denotes, CJson.Linked, Printable, PrintValue, PrintString, CJson.Named, CStr, MembersSize, MemberTexts;
    names, entries, len := [], [], 7;
    NoTexts(depth, fmt);
    if fmt {
      len := len + depth;
    }
    var child := item.child;
    ghost var i, done: seq<Member> := 0, [];
    ObjectStart(item, members);
    while child != null
      invariant 0 <= i <= |members| == |item.kids| && Place(item, i, child)
      invariant done == members[..i]
      invariant item.Denotes(Object(members))
      invariant MemberTexts(names, entries, done, depth, fmt)
      invariant len == 7 + (if fmt then depth else 0) + MembersSize(done, depth, fmt)
      decreases |members| - i
    {
      ObjectChild(item, members, i);
      ghost var m := members[i];
      var str, ret, size := PrintKeyAndValue(child, m, item.sub, depth, fmt);
      MembersSizeLast(done, m, depth, fmt);
      TextsLast(names, str, entries, ret, done, m, depth, fmt);
      names, entries, done := names + [str], entries + [ret], done + [m];
      len := len + size + 2 + if fmt then 2 + depth else 0;
      child := child.next;
      i := i + 1;
    }
    assert done == members;
  }

  lemma NoTexts(depth: nat, fmt: bool)
    ensures MemberTexts([], [], [], depth, fmt) && MembersSize([], depth, fmt) == 0
  {
  }

  lemma TextsLast(names: seq<array<byte>>, str: array<byte>, entries: seq<array<byte>>, ret: array<byte>,
                  members: seq<Member>, m: Member, depth: nat, fmt: bool)
    requires MemberTexts(names, entries, members, depth, fmt)
    requires CStr(str, PrintString(m.key)) && CStr(ret, PrintValue(m.value, depth, fmt))
    ensures MemberTexts(names + [str], entries + [ret], members + [m], depth, fmt)
  {
  }

  /** The key of a member, quoted, its value, and the length of both. */
  method PrintKeyAndValue(child: CJson, ghost m: Member, ghost below: set<object>, depth: nat, fmt: bool)
    returns (str: array<byte>, ret: array<byte>, size: nat)
    requires child.Named(m.key, below) && child.Denotes(m.value) && Printable(m.value)
    ensures fresh(str) && CStr(str, PrintString(m.key))
    ensures fresh(ret) && CStr(ret, PrintValue(m.value, depth, fmt))
    ensures size == |PrintString(m.key)| + |PrintValue(m.value, depth, fmt)|
    decreases m, 4
  {
    str := PrintStringPtr(child.name, m.key);
    ret := PrintNode(child, m.value, depth, fmt);
    var n := Strlen(ret, PrintValue(m.value, depth, fmt));
    size := Strlen(str, PrintString(m.key));
    size := size + n;
  }

  method PutTabs(out: array<byte>, ptr: nat, n: nat) returns (next: nat)
    requires ptr + n <= out.Length
    modifies out
    ensures next == ptr + n && out[..next] == old(out[..ptr]) + Tabs(n)
  {
    next := ptr;
    var j := 0;
    assert old(out[..ptr]) + Tabs(0) == out[..ptr];
    while j < n
      invariant 0 <= j <= n && next == ptr + j
      invariant out[..next] == old(out[..ptr]) + Tabs(j)
    {
      TabsLast(j);
      assert old(out[..ptr]) + (Tabs(j) + [9]) == old(out[..ptr]) + Tabs(j) + [9];
      next := Put(out, next, [9]);
      j := j + 1;
    }
  }

  lemma {:induction false} TabsLast(n: nat)
    ensures Tabs(n + 1) == Tabs(n) + [9]
  {
    if n > 0 {
      TabsLast(n - 1);
      assert [9] + (Tabs(n - 1) + [9]) == [9] + Tabs(n - 1) + [9];
    } else {
      assert Tabs(1) == [9] + Tabs(0);
    }
  }

  /** What follows a member: a comma unless it is the last, and a line feed when formatting. */
  function MemberEnd(last: bool, fmt: bool): seq<byte> {
    (if last then [] else [',' as int]) + (if fmt then [LF] else [])
  }

  /** One member: tabs, key, colon, value, and what separates it from the next. */
  method PutMember(out: array<byte>, ptr: nat, name: array<byte>, entry: array<byte>, ghost m: Member, last: bool, depth: nat, fmt: bool)
    returns (next: nat)
    requires out != name && out != entry
    requires CStr(name, PrintString(m.key)) && CStr(entry, PrintValue(m.value, depth, fmt))
    requires ptr + |PrintMember(m, depth, fmt)| + |MemberEnd(last, fmt)| < out.Length
    modifies out
    ensures next == ptr + |PrintMember(m, depth, fmt)| + |MemberEnd(last, fmt)|
    ensures out[..next] == old(out[..ptr]) + PrintMember(m, depth, fmt) + MemberEnd(last, fmt)
  {
    hide PrintString, PrintValue, Tabs;
    ghost var done, key, value := out[..ptr], PrintString(m.key), PrintValue(m.value, depth, fmt);
    ghost var tabs, gap: seq<byte>, comma: seq<byte>, nl: seq<byte> :=
      if fmt then Tabs(depth) else [], if fmt then [9] else [], if last then [] else [',' as int], if fmt then [LF] else [];
    TabsLength(depth);
    next := PutKey(out, ptr, name, key, depth, fmt);
    var n := Strlen(entry, value);
    next := Put(out, next, entry[..n]);
    if !last {
      next := Put(out, next, [',' as int]);
    }
    if fmt {
      next := Put(out, next, [LF]);
    }
    out[next] := NUL;
    assert out[..next] == done + tabs + key + [':' as int] + gap + value + comma + nl;
    MemberText(done, tabs, key, gap, value, comma, nl);
  }

  /** The tabs, the key and its colon. */
  method PutKey(out: array<byte>, ptr: nat, name: array<byte>, ghost key: seq<byte>, depth: nat, fmt: bool) returns (next: nat)
    requires out != name && CStr(name, key)
    requires ptr + (if fmt then depth + 1 else 0) + |key| + 1 < out.Length
    modifies out
    ensures next == ptr + (if fmt then depth + 1 else 0) + |key| + 1
    ensures var tabs, gap: seq<byte> := if fmt then Tabs(depth) else [], if fmt then [9] else [];
      out[..next] == old(out[..ptr]) + tabs + key + [':' as int] + gap
  {
    hide Tabs;
    ghost var done := out[..ptr];
    TabsLength(depth);
    next := ptr;
    if fmt {
      next := PutTabs(out, next, depth);
    }
    assert out[..next] == done + if fmt then Tabs(depth) else [];
    var n := Strlen(name, key);
    next := Put(out, next, name[..n]);
    next := Put(out, next, [':' as int]);
    if fmt {
      next := Put(out, next, [9]);
    }
  }

  lemma MemberText(done: seq<byte>, tabs: seq<byte>, key: seq<byte>, gap: seq<byte>, value: seq<byte>, comma: seq<byte>, nl: seq<byte>)
    ensures done + tabs + key + [':' as int] + gap + value + comma + nl
         == done + (tabs + key + [':' as int] + gap + value) + (comma + nl)
  {
  }

  lemma PrintMembersText(members: seq<Member>, depth: nat, fmt: bool)
    requires members != []
    ensures PrintMembers(members, depth, fmt)
         == PrintMember(members[0], depth, fmt) + MemberEnd(|members| == 1, fmt) + PrintMembers(members[1..], depth, fmt)
  {
    var a, d := PrintMember(members[0], depth, fmt), PrintMembers(members[1..], depth, fmt);
    var b: seq<byte>, c: seq<byte> := if |members| > 1 then [',' as int] else [], if fmt then [LF] else [];
    assert a + b + c + d == a + (b + c) + d;
  }

  /** Composes the output object. */
  method JoinMembers(names: seq<array<byte>>, entries: seq<array<byte>>, ghost members: seq<Member>,
                     numentries: nat, len: nat, depth: nat, fmt: bool)
    returns (out: array<byte>)
    requires numentries == |members| && depth > 0
    requires MemberTexts(names, entries, members, depth, fmt)
    requires |PrintValue(Object(members), depth - 1, fmt)| + 1 <= len
    ensures fresh(out) && CStrAt(out, PrintValue(Object(members), depth - 1, fmt))
  {
    hide PrintMembers, PrintValue, PrintMember, Tabs;
    ObjectText(members, depth, fmt);
    TabsLength(depth - 1);
    out := new byte[len];
    ghost var open: seq<byte> := ['{' as int] + if fmt then [LF] else [];
    var ptr := Put(out, 0, ['{' as int]);
    if fmt {
      ptr := Put(out, ptr, [LF]);
    }
    out[ptr] := NUL;
    assert out[..ptr] == open;
    ptr := PutMembers(out, ptr, names, entries, members, numentries, depth, fmt);
    PutClose(out, ptr, depth - 1, fmt);
  }

  /** All members, one after the other. */
  method PutMembers(out: array<byte>, ptr: nat, names: seq<array<byte>>, entries: seq<array<byte>>,
                    ghost members: seq<Member>, numentries: nat, depth: nat, fmt: bool)
    returns (next: nat)
    requires numentries == |members| && out !in names && out !in entries
    requires MemberTexts(names, entries, members, depth, fmt)
    requires ptr + |PrintMembers(members, depth, fmt)| < out.Length
    modifies out
    ensures next == ptr + |PrintMembers(members, depth, fmt)|
    ensures out[..next] == old(out[..ptr]) + PrintMembers(members, depth, fmt)
  {
    hide PrintMembers, PrintValue, PrintMember, PrintString, CStr, MemberEnd;
    ghost var whole := out[..ptr] + PrintMembers(members, depth, fmt);
    next := ptr;
    var i := 0;
    assert members[0..] == members;
    while i < numentries
      invariant 0 <= i <= numentries
      invariant next + |PrintMembers(members[i..], depth, fmt)| == |whole|
      invariant out[..next] + PrintMembers(members[i..], depth, fmt) == whole
      invariant MemberTexts(names, entries, members, depth, fmt)
    {
      PrintMembersText(members[i..], depth, fmt);
      assert members[i..][1..] == members[i + 1..];
      ghost var done, text, sep := out[..next], PrintMember(members[i], depth, fmt), MemberEnd(i == numentries - 1, fmt);
      assert done + (text + sep + PrintMembers(members[i + 1..], depth, fmt))
          == done + text + sep + PrintMembers(members[i + 1..], depth, fmt);
      next := PutMember(out, next, names[i], entries[i], members[i], i == numentries - 1, depth, fmt);
      i := i + 1;
    }
    NoMembers(depth, fmt);
    assert members[i..] == [] && whole + [] == whole;
  }

  /** The closing brace, after its tabs. */
  method PutClose(out: array<byte>, ptr: nat, depth: nat, fmt: bool)
    requires ptr + (if fmt then depth else 0) + 1 < out.Length
    modifies out
    ensures CStrAt(out, old(out[..ptr]) + (if fmt then Tabs(depth) else []) + ['}' as int])
  {
    TabsLength(depth);
    var next := ptr;
    if fmt {
      next := PutTabs(out, next, depth);
    } else {
      assert out[..ptr] + [] == out[..ptr];
    }
    next := Put(out, next, ['}' as int]);
    out[next] := NUL;
  }

  /** The text s and its terminator are in the buffer. */
  ghost predicate CStrAt(a: array<byte>, s: seq<byte>)
    reads a
  {
    |s| < a.Length && a[..|s|] == s && a[|s|] == NUL
  }

  lemma ObjectText(members: seq<Member>, depth: nat, fmt: bool)
    requires depth > 0
    ensures PrintValue(Object(members), depth - 1, fmt)
         == ['{' as int] + (if fmt then [LF] else []) + PrintMembers(members, depth, fmt)
            + (if fmt then Tabs(depth - 1) else []) + ['}' as int]
  {
  }
}
