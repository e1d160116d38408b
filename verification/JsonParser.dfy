/** The parser: builds cJSON nodes in place while it walks the text. */
module JsonParser {
  import opened Bytes
  import opened Decimal
  import opened Memory
  import opened JsonSpec
  import opened JsonTree
  import opened JsonUnicode

  /** A pointer into the text, or NULL. */
  type Pointer = Option<seq<byte>>

  method SkipBlanks(s: seq<byte>) returns (r: seq<byte>)
    ensures r == Skip(s)
  {
    r := s;
    while Peek(r) != NUL && Peek(r) <= 32
      invariant Skip(r) == Skip(s)
      decreases |r|
    {
      r := r[1..];
    }
  }

  // ----- Strings -----

  /** The first pass: how long the decoded string can be. */
  method MeasureString(s: seq<byte>) returns (len: nat)
    ensures len == FirstPass(s)
  {
    var ptr := s;
    len := 0;
    while Peek(ptr) != QUOTE && Peek(ptr) != NUL
      invariant len + FirstPass(ptr) == FirstPass(s)
      decreases |ptr|
    {
      len := len + 1;
      if ptr[0] == BACKSLASH {
        ptr := if |ptr| > 1 then ptr[2..] else [];
      } else {
        ptr := ptr[1..];
      }
    }
  }

  /** Writes a code point as UTF-8, last byte first. */
  method PutUtf8(out: array<byte>, q: nat, uc0: int) returns (next: nat)
    requires 0 <= uc0 < 0x200000 && q + |Utf8(uc0)| <= out.Length
    modifies out
    ensures next == q + |Utf8(uc0)| && out[..next] == old(out[..q]) + Utf8(uc0)
  {
    var uc := uc0;
    var len := if uc < 0x80 then 1 else if uc < 0x800 then 2 else if uc < 0x10000 then 3 else 4;
    next := q + len;
    var ptr2 := next;
    if len >= 4 {
      ptr2 := ptr2 - 1;
      out[ptr2] := 0x80 + uc % 64;
      uc := uc / 64;
    }
    if len >= 3 {
      ptr2 := ptr2 - 1;
      out[ptr2] := 0x80 + uc % 64;
      uc := uc / 64;
    }
    if len >= 2 {
      ptr2 := ptr2 - 1;
      out[ptr2] := 0x80 + uc % 64;
      uc := uc / 64;
    }
    ptr2 := ptr2 - 1;
    out[ptr2] := if len == 4 then 0xF0 + uc else if len == 3 then 0xE0 + uc else if len == 2 then 0xC0 + uc else uc;
  }

  /** One \u escape: decodes it, writes what it yields, and returns what follows. */
  method PutUnicode(out: array<byte>, q: nat, s: seq<byte>) returns (next: nat, rest: seq<byte>)
    requires Unicode(s).Ok? && q + |Unicode(s).value| <= out.Length
    modifies out
    ensures rest == Unicode(s).rest
    ensures next == q + |Unicode(s).value| && out[..next] == old(out[..q]) + Unicode(s).value
  {
    var uc := Hex4(s);
    next, rest := q, s[4..];
    assert out[..q] + [] == out[..q];
    if 0xDC00 <= uc <= 0xDFFF || uc == 0 {
      return;
    }
    if 0xD800 <= uc <= 0xDBFF {
      if Peek(rest) != BACKSLASH || Peek(s[5..]) != 'u' as int {
        return;
      }
      var low := Hex4(s[6..]);
      rest := s[10..];
      if low < 0xDC00 || low > 0xDFFF {
        return;
      }
      uc := PairCode(uc, low);
    }
    next := PutUtf8(out, q, uc);
  }

  lemma UnicodeNoNul(s: seq<byte>)
    requires Unicode(s).Ok?
    ensures NUL !in Unicode(s).value
  {
    hide Hex4;
  }

  lemma {:induction false} UnescapeNoNul(s: seq<byte>)
    requires Unescape(s).Ok?
    ensures NUL !in Unescape(s).value
    decreases |s|
  {
    if Peek(s) == NUL || s[0] == QUOTE {
    } else if s[0] != BACKSLASH {
      UnescapeNoNul(s[1..]);
    } else if s[1] != 'u' as int {
      UnescapeNoNul(s[2..]);
    } else {
      UnicodeNoNul(s[2..]);
      hide Unicode;
      UnescapeNoNul(Unicode(s[2..]).rest);
    }
  }

  lemma PrefixTwice(a: seq<byte>, b: seq<byte>, p: Parse<seq<byte>>)
    ensures Prefix(a, Prefix(b, p)) == Prefix(a + b, p)
  {
    if p.Ok? {
      assert a + (b + p.value) == a + b + p.value;
    }
  }

  /** The second pass: decodes into a buffer of the size measured before. */
  method DecodeString(s: seq<byte>, len: nat) returns (out: array<byte>, ptr: seq<byte>)
    requires Unescape(s).Ok? && len == FirstPass(s)
    ensures fresh(out) && out.Length == len + 1 && CStr(out, Unescape(s).value) && ptr == Unescape(s).rest
  {
    out := new byte[len + 1];
    ptr := s;
    var q := 0;
    assert [] + Unescape(s).value == Unescape(s).value;
    while Peek(ptr) != QUOTE && Peek(ptr) != NUL
      invariant Unescape(ptr).Ok? && 0 <= q && q + FirstPass(ptr) <= len
      invariant Unescape(s) == Prefix(out[..q], Unescape(ptr))
      decreases |ptr|
    {
      ghost var done := out[..q];
      if ptr[0] != BACKSLASH {
        PrefixTwice(done, [ptr[0]], Unescape(ptr[1..]));
        q := Put(out, q, [ptr[0]]);
        ptr := ptr[1..];
      } else if ptr[1] != 'u' as int {
        PrefixTwice(done, [Plain(ptr[1])], Unescape(ptr[2..]));
        q := Put(out, q, [Plain(ptr[1])]);
        ptr := ptr[2..];
      } else {
        ghost var p := Unicode(ptr[2..]);
        UnicodeFits(ptr[2..]);
        PrefixTwice(done, p.value, Unescape(p.rest));
        q, ptr := PutUnicode(out, q, ptr[2..]);
      }
    }
    out[q] := NUL;
    UnescapeNoNul(s);
    if Peek(ptr) == QUOTE {
      ptr := ptr[1..];
    }
    assert out[..q] + [] == out[..q];
  }

  method ParseStringInto(item: CJson, s: seq<byte>) returns (r: Pointer)
    requires ParseString(s) != Undefined && item.Blank()
    modifies item`ty, item`valuestring, item`sub
    ensures ParseString(s).Ok? ==>
      && r == Some(ParseString(s).rest) && item.valuestring != null && fresh(item.valuestring)
      && item.sub == {item.valuestring} && CStr(item.valuestring, ParseString(s).value) && item.ty == STRING
    ensures ParseString(s).Rejected? ==> r == None
  {
    if Peek(s) != QUOTE {
      return None;
    }
    var len := MeasureString(s[1..]);
    var out, ptr := DecodeString(s[1..], len);
    item.valuestring := out;
    item.ty := STRING;
    item.sub := {out};
    r := Some(ptr);
  }

  // ----- Numbers -----

  /** Folds the digits at the front into n and counts them. */
  method TakeDigits(s: seq<byte>, n0: int) returns (n: int, count: nat, rest: seq<byte>)
    ensures count == DigitRun(s) && n == Scan(s[..count], n0) && rest == s[count..]
  {
    n, count, rest := n0, 0, s;
    while Peek(rest) != NUL && IsDigit(Peek(rest))
      invariant count <= |s| && rest == s[count..]
      invariant forall i :: 0 <= i < count ==> IsDigit(s[i])
      invariant n == Scan(s[..count], n0)
      decreases |rest|
    {
      assert s[..count + 1] == s[..count] + [s[count]];
      ScanAppend(s[..count], s[count], n0);
      n := n * 10 + (rest[0] - '0' as int);
      rest := rest[1..];
      count := count + 1;
    }
    RunIs(s, count);
  }

  lemma RunIs(s: seq<byte>, n: nat)
    requires n <= |s| && (forall i :: 0 <= i < n ==> IsDigit(s[i])) && !IsDigit(Peek(s[n..]))
    ensures DigitRun(s) == n
  {
    assert n < |s| ==> s[n..][0] == s[n];
  }

  method TakeInteger(s: seq<byte>) returns (n: int, rest: seq<byte>)
    ensures (n, rest) == IntegerPart(s)
  {
    n, rest := 0, s;
    if Peek(rest) == '0' as int {
      rest := rest[1..];
    }
    if '1' as int <= Peek(rest) <= '9' as int {
      var count;
      n, count, rest := TakeDigits(rest, 0);
    }
  }

  method TakeFraction(n0: int, s: seq<byte>) returns (n: int, scale: int, rest: seq<byte>)
    ensures (n, scale, rest) == Fraction(n0, s)
  {
    n, scale, rest := n0, 0, s;
    if Peek(rest) == '.' as int && IsDigit(Peek(rest[1..])) {
      var count: int;
      n, count, rest := TakeDigits(rest[1..], n);
      scale := -count;
    }
  }

  method TakeExponent(s: seq<byte>) returns (subscale: int, rest: seq<byte>)
    ensures (subscale, rest) == Exponent(s)
  {
    subscale, rest := 0, s;
    if Peek(rest) == 'e' as int || Peek(rest) == 'E' as int {
      rest := rest[1..];
      var signsubscale := 1;
      if Peek(rest) == '+' as int {
        rest := rest[1..];
      } else if Peek(rest) == '-' as int {
        signsubscale, rest := -1, rest[1..];
      }
      var count;
      subscale, count, rest := TakeDigits(rest, 0);
      subscale := signsubscale * subscale;
    }
  }

  /** parse_number. */
  method ParseNumberInto(item: CJson, s: seq<byte>) returns (r: Pointer)
    modifies item`ty, item`valueint, item`mantissa, item`scale
    ensures var p := ParseNumber(s);
      && r == Some(p.rest) && item.ty == NUMBER && Number(item.mantissa, item.scale) == p.value
      && item.valueint == Truncated(item.mantissa, item.scale)
  {
    hide IntegerPart, Fraction, Exponent;
    var num, sign := s, 1;
    if Peek(num) == '-' as int {
      sign, num := -1, num[1..];
    }
    var n, scale: int, subscale: int;
    n, num := TakeInteger(num);
    n, scale, num := TakeFraction(n, num);
    subscale, num := TakeExponent(num);
    item.mantissa := sign * n;
    item.scale := scale + subscale;
    item.valueint := Truncated(item.mantissa, item.scale);
    item.ty := NUMBER;
    r := Some(num);
  }

  // ----- Children under construction -----

  /** A chain of finished nodes inside sub, the last one pointing at tail. */
  ghost predicate Growing(kids: seq<CJson>, vals: seq<Json>, sub: set<object>, tail: CJson?)
    reads sub
  {
    && 0 < |kids| == |vals|
    && (forall i :: 0 <= i < |kids| ==> kids[i] in sub)
    && (forall i :: 0 <= i < |kids| ==> kids[i].sub <= sub)
    && (forall i :: 0 <= i < |kids| ==> kids[i].Denotes(vals[i]))
    && (forall i {:trigger kids[i].next} :: 0 <= i < |kids| ==> kids[i].next == (if i + 1 < |kids| then kids[i + 1] else tail))
    && (forall i {:trigger kids[i].prev} :: 0 <= i < |kids| ==> kids[i].prev == (if i > 0 then kids[i - 1] else null))
    && (forall i, j :: 0 <= i < j < |kids| ==> kids[i] != kids[j])
    && (forall i, j :: 0 <= i < |kids| && 0 <= j < |kids| ==> kids[i] !in kids[j].sub)
  }

  lemma GrowFirst(child: CJson, v: Json, sub: set<object>)
    requires child.Denotes(v) && child.next == null && child.prev == null && child !in child.sub
    requires child in sub && child.sub <= sub
    ensures Growing([child], [v], sub, null)
  {
  }

  lemma GrowNext(kids: seq<CJson>, vals: seq<Json>, sub: set<object>, child: CJson, v: Json, sub': set<object>)
    requires Growing(kids, vals, sub, child)
    requires child.Denotes(v) && child.next == null && child.prev == kids[|kids| - 1]
    requires child !in sub && child !in child.sub && child.sub !! sub
    requires sub <= sub' && child in sub' && child.sub <= sub'
    ensures Growing(kids + [child], vals + [v], sub', null)
  {
    var kids', vals' := kids + [child], vals + [v];
    forall i | 0 <= i < |kids'|
      ensures kids'[i] in sub' && kids'[i].sub <= sub' && kids'[i].Denotes(vals'[i])
      ensures kids'[i].next == (if i + 1 < |kids'| then kids'[i + 1] else null)
      ensures kids'[i].prev == (if i > 0 then kids'[i - 1] else null)
    {
      if i < |kids| {
        assert kids'[i] == kids[i] && vals'[i] == vals[i];
      }
    }
  }

  lemma NoChildren(item: CJson)
    requires item.Blank()
    ensures item.ty == ARRAY ==> item.Denotes(Array([]))
    ensures item.ty == OBJECT ==> item.Denotes(Object([]))
  {
  }

  ghost method CloseArray(item: CJson, kids: seq<CJson>, vals: seq<Json>, sub: set<object>)
    requires Growing(kids, vals, sub, null) && item !in sub
    requires item.ty == ARRAY && item.child == kids[0]
    modifies item`kids, item`sub
    ensures item.Denotes(Array(vals)) && item.sub == sub
  {
    item.kids, item.sub := kids, sub;
  }

  /** The values of some members. */
  function Values(members: seq<Member>): (vals: seq<Json>)
    ensures |vals| == |members|
    ensures forall i :: 0 <= i < |members| ==> vals[i] == members[i].value
  {
    if members == [] then [] else [members[0].value] + Values(members[1..])
  }

  lemma {:induction false} ValuesLast(members: seq<Member>, m: Member)
    ensures Values(members + [m]) == Values(members) + [m.value]
  {
  }

  /** Every node has the key of its member. */
  ghost predicate Keyed(kids: seq<CJson>, members: seq<Member>, sub: set<object>)
    reads sub
  {
    && |kids| == |members|
    && (forall i :: 0 <= i < |kids| ==> kids[i] in sub && kids[i].Named(members[i].key, sub))
  }

  lemma KeyNext(kids: seq<CJson>, members: seq<Member>, sub: set<object>, child: CJson, m: Member, sub': set<object>)
    requires Keyed(kids, members, sub) && sub <= sub' && child in sub' && child.Named(m.key, sub')
    ensures Keyed(kids + [child], members + [m], sub')
  {
  }

  ghost method CloseObject(item: CJson, kids: seq<CJson>, members: seq<Member>, sub: set<object>)
    requires Growing(kids, Values(members), sub, null) && Keyed(kids, members, sub) && item !in sub
    requires item.ty == OBJECT && item.child == kids[0]
    modifies item`kids, item`sub
    ensures item.Denotes(Object(members)) && item.sub == sub
  {
    item.kids, item.sub := kids, sub;
  }

  /** Starts the next node of a chain. */
  method NewSibling(child: CJson, ghost kids: seq<CJson>, ghost vals: seq<Json>, ghost sub: set<object>)
    returns (newItem: CJson)
    requires Growing(kids, vals, sub, null) && child == kids[|kids| - 1]
    modifies child`next
    ensures fresh(newItem) && newItem.Blank() && newItem.next == null && newItem.prev == child
    ensures Growing(kids, vals, sub, newItem)
  {
    newItem := new CJson();
    child.next := newItem;
    newItem.prev := child;
  }

  // ----- Values -----

  /** What comes after some items, at a comma or the closing bracket. */
  function ItemsFrom(done: seq<Json>, t: seq<byte>): Parse<seq<Json>> {
    if Peek(t) == ',' as int then
      match ParseItems(t[1..])
      case Ok(vs, rest) => Ok(done + vs, rest)
      case other => other
    else if Peek(t) == ']' as int then Ok(done, t[1..])
    else Rejected
  }

  lemma ItemsFromFirst(t: seq<byte>)
    ensures var p := ParseValue(Skip(t));
      ParseItems(t) == if p.Ok? then ItemsFrom([p.value], Skip(p.rest)) else if p.Rejected? then Rejected else Undefined
  {
  }

  lemma ItemsFromNext(done: seq<Json>, t: seq<byte>)
    requires Peek(t) == ',' as int
    ensures var p := ParseValue(Skip(t[1..]));
      ItemsFrom(done, t) ==
        if p.Ok? then ItemsFrom(done + [p.value], Skip(p.rest)) else if p.Rejected? then Rejected else Undefined
  {
    var p := ParseValue(Skip(t[1..]));
    ItemsFromFirst(t[1..]);
    if p.Ok? && ItemsFrom([p.value], Skip(p.rest)).Ok? && Peek(Skip(p.rest)) == ',' as int {
      var vs := ParseItems(Skip(p.rest)[1..]).value;
      assert done + ([p.value] + vs) == done + [p.value] + vs;
    }
  }

  lemma ItemsFromLast(done: seq<Json>, t: seq<byte>)
    requires Peek(t) != ',' as int
    ensures ItemsFrom(done, t) == if Peek(t) == ']' as int then Ok(done, t[1..]) else Rejected
  {
  }

  /** parse_value. */
  method ParseValueInto(item: CJson, s: seq<byte>) returns (r: Pointer)
    requires item.Blank() && ParseValue(s) != Undefined
    modifies item`ty, item`child, item`valuestring, item`valueint, item`mantissa, item`scale, item`kids, item`sub
    ensures ParseValue(s).Ok? ==>
      r == Some(ParseValue(s).rest) && item.Denotes(ParseValue(s).value) && fresh(item.sub)
    ensures ParseValue(s).Rejected? ==> r == None
    decreases |s|, 1
  {
    if StartsWith(s, NULL_TEXT) {
      item.ty := NULL;
      return Some(s[4..]);
    }
    if StartsWith(s, FALSE_TEXT) {
      item.ty := FALSE;
      return Some(s[5..]);
    }
    if StartsWith(s, TRUE_TEXT) {
      item.ty := TRUE;
      item.valueint := 1;
      return Some(s[4..]);
    }
    if Peek(s) == QUOTE {
      r := ParseStringInto(item, s);
      return;
    }
    if StartsNumber(Peek(s)) {
      r := ParseNumberInto(item, s);
      return;
    }
    if Peek(s) == '[' as int {
      r := ParseArrayInto(item, s);
      return;
    }
    if Peek(s) == '{' as int {
      r := ParseObjectInto(item, s);
      return;
    }
    r := None;
  }

  /** One more array item: starts the next node and parses its value, behind a comma. */
  method ParseSibling(child: CJson, s: seq<byte>,
      ghost kids: seq<CJson>, ghost vals: seq<Json>, ghost sub: set<object>)
    returns (newItem: CJson, r: Pointer, ghost sub': set<object>)
    requires ParseValue(s) != Undefined
    requires Growing(kids, vals, sub, null) && child == kids[|kids| - 1]
    modifies child`next
    ensures ParseValue(s).Ok? ==>
      && r == Some(ParseValue(s).rest) && fresh(newItem) && sub <= sub' && fresh(sub' - sub)
      && Growing(kids + [newItem], vals + [ParseValue(s).value], sub', null)
    ensures ParseValue(s).Rejected? ==> r == None
    decreases |s|, 2
  {
    newItem := NewSibling(child, kids, vals, sub);
    hide ParseValue, Growing, CJson.Denotes;
    r := ParseValueInto(newItem, s);
    sub' := sub + {newItem} + newItem.sub;
    if r != None {
      GrowNext(kids, vals, sub, newItem, ParseValue(s).value, sub');
    }
  }

  /** The loop of parse_array: further items, then the closing bracket. */
  method ParseMoreItems(first: CJson, s: seq<byte>,
      ghost kids0: seq<CJson>, ghost vals0: seq<Json>, ghost sub0: set<object>)
    returns (r: Pointer, ghost kids: seq<CJson>, ghost vals: seq<Json>, ghost sub: set<object>)
    requires kids0 != [] && first == kids0[|kids0| - 1] && ItemsFrom(vals0, s) != Undefined
    requires Growing(kids0, vals0, sub0, null)
    modifies first`next
    ensures ItemsFrom(vals0, s).Ok? ==>
      && r == Some(ItemsFrom(vals0, s).rest) && vals == ItemsFrom(vals0, s).value
      && kids0 <= kids && sub0 <= sub && fresh(sub - sub0) && Growing(kids, vals, sub, null)
    ensures ItemsFrom(vals0, s).Rejected? ==> r == None
    decreases |s|, 3
  {
    hide ParseValue, ParseItems, ItemsFrom, Growing, CJson.Denotes, Skip;
    var value, child := s, first;
    kids, vals, sub := kids0, vals0, sub0;
    while Peek(value) == ',' as int
      invariant kids0 <= kids && sub0 <= sub && fresh(sub - sub0)
      invariant child == kids[|kids| - 1] && (child == first || fresh(child))
      invariant Growing(kids, vals, sub, null)
      invariant ItemsFrom(vals0, s) == ItemsFrom(vals, value)
      invariant |value| <= |s|
      decreases |value|
    {
      ItemsFromNext(vals, value);
      value := SkipBlanks(value[1..]);
      var p;
      child, p, sub := ParseSibling(child, value, kids, vals, sub);
      if p == None {
        return None, kids, vals, sub;
      }
      vals, kids := vals + [ParseValue(value).value], kids + [child];
      value := SkipBlanks(p.value);
    }
    ItemsFromLast(vals, value);
    r := if Peek(value) == ']' as int then Some(value[1..]) else None;
  }

  method ParseFirstItem(s: seq<byte>) returns (child: CJson, r: Pointer, ghost sub: set<object>)
    requires ParseValue(s) != Undefined
    ensures fresh(child) && fresh(sub)
    ensures ParseValue(s).Ok? ==> r == Some(ParseValue(s).rest) && Growing([child], [ParseValue(s).value], sub, null)
    ensures ParseValue(s).Rejected? ==> r == None
    decreases |s|, 2
  {
    hide ParseValue, Growing, CJson.Denotes;
    child := new CJson();
    r := ParseValueInto(child, s);
    sub := {};
    if r != None {
      sub := {child} + child.sub;
      GrowFirst(child, ParseValue(s).value, sub);
    }
  }

  /** parse_array. */
  method ParseArrayInto(item: CJson, s: seq<byte>) returns (r: Pointer)
    requires Peek(s) == '[' as int && item.Blank() && ParseArray(s) != Undefined
    modifies item`ty, item`child, item`kids, item`sub
    ensures ParseArray(s).Ok? ==>
      r == Some(ParseArray(s).rest) && item.Denotes(ParseArray(s).value) && fresh(item.sub)
    ensures ParseArray(s).Rejected? ==> r == None
    decreases |s|, 0
  {
    hide ParseValue, ParseItems, ItemsFrom, Growing, CJson.Denotes, Skip;
    item.ty := ARRAY;
    var value := SkipBlanks(s[1..]);
    if Peek(value) == ']' as int {
      NoChildren(item);
      return Some(value[1..]);
    }
    ItemsFromFirst(value);
    value := SkipBlanks(value);
    var child, p;
    ghost var sub;
    child, p, sub := ParseFirstItem(value);
    item.child := child;
    if p == None {
      return None;
    }
    ghost var vals, kids := [ParseValue(value).value], [child];
    value := SkipBlanks(p.value);
    r, kids, vals, sub := ParseMoreItems(child, value, kids, vals, sub);
    if r != None {
      CloseArray(item, kids, vals, sub);
    }
  }

  /** A key, a colon and a value, the key ending up as the name of the node. */
  method ParseMemberInto(child: CJson, s: seq<byte>) returns (r: Pointer)
    requires child.Blank() && ParseMember(s) != Undefined
    modifies child`ty, child`child, child`valuestring, child`valueint, child`mantissa, child`scale, child`kids, child`sub, child`name
    ensures ParseMember(s).Ok? ==>
      && r == Some(ParseMember(s).rest) && child.Denotes(ParseMember(s).value.value) && fresh(child.sub)
      && child.name != null && fresh(child.name) && CStr(child.name, ParseMember(s).value.key)
    ensures ParseMember(s).Rejected? ==> r == None
    decreases |s|, 2
  {
    hide ParseValue, CJson.Denotes, Skip, Unescape;
    var value := SkipBlanks(s);
    var p := ParseStringInto(child, value);
    if p == None {
      return None;
    }
    value := SkipBlanks(p.value);
    child.name := child.valuestring;
    child.valuestring := null;
    child.sub := {};
    if Peek(value) != ':' as int {
      return None;
    }
    value := SkipBlanks(value[1..]);
    r := ParseValueInto(child, value);
  }

  method NewMember(child: CJson, ghost kids: seq<CJson>, ghost members: seq<Member>, ghost sub: set<object>)
    returns (newItem: CJson)
    requires kids != [] && child == kids[|kids| - 1]
    requires Growing(kids, Values(members), sub, null) && Keyed(kids, members, sub)
    modifies child`next
    ensures fresh(newItem) && newItem.Blank() && newItem.next == null && newItem.prev == child
    ensures Growing(kids, Values(members), sub, newItem) && Keyed(kids, members, sub)
  {
    newItem := NewSibling(child, kids, Values(members), sub);
  }

  /** One more object member: starts the next node and parses its key and value, behind a comma. */
  method ParseNextMember(child: CJson, s: seq<byte>,
      ghost kids: seq<CJson>, ghost members: seq<Member>, ghost sub: set<object>)
    returns (newItem: CJson, r: Pointer, ghost sub': set<object>)
    requires ParseMember(s) != Undefined
    requires kids != [] && child == kids[|kids| - 1]
    requires Growing(kids, Values(members), sub, null) && Keyed(kids, members, sub)
    modifies child`next
    ensures ParseMember(s).Ok? ==>
      && r == Some(ParseMember(s).rest) && fresh(newItem) && sub <= sub' && fresh(sub' - sub)
      && Growing(kids + [newItem], Values(members + [ParseMember(s).value]), sub', null)
      && Keyed(kids + [newItem], members + [ParseMember(s).value], sub')
    ensures ParseMember(s).Rejected? ==> r == None
    decreases |s|, 3
  {
    hide ParseMember, Growing, CJson.Denotes, Values, Keyed;
    newItem := NewMember(child, kids, members, sub);
    r := ParseMemberInto(newItem, s);
    sub' := sub;
    if r != None {
      ghost var m := ParseMember(s).value;
      sub' := sub + {newItem, newItem.name} + newItem.sub;
      ValuesLast(members, m);
      GrowNext(kids, Values(members), sub, newItem, m.value, sub');
      KeyNext(kids, members, sub, newItem, m, sub');
    }
  }

  /** What comes after some members, at a comma or the closing brace. */
  function MembersFrom(done: seq<Member>, t: seq<byte>): Parse<seq<Member>> {
    if Peek(t) == ',' as int then
      match ParseMembers(t[1..])
      case Ok(ms, rest) => Ok(done + ms, rest)
      case other => other
    else if Peek(t) == '}' as int then Ok(done, t[1..])
    else Rejected
  }

  lemma MembersFromFirst(t: seq<byte>)
    ensures var p := ParseMember(t);
      ParseMembers(t) == if p.Ok? then MembersFrom([p.value], Skip(p.rest)) else if p.Rejected? then Rejected else Undefined
  {
  }

  lemma MembersFromNext(done: seq<Member>, t: seq<byte>)
    requires Peek(t) == ',' as int
    ensures var p := ParseMember(t[1..]);
      MembersFrom(done, t) ==
        if p.Ok? then MembersFrom(done + [p.value], Skip(p.rest)) else if p.Rejected? then Rejected else Undefined
  {
    var p := ParseMember(t[1..]);
    MembersFromFirst(t[1..]);
    if p.Ok? && MembersFrom([p.value], Skip(p.rest)).Ok? && Peek(Skip(p.rest)) == ',' as int {
      var ms := ParseMembers(Skip(p.rest)[1..]).value;
      assert done + ([p.value] + ms) == done + [p.value] + ms;
    }
  }

  lemma MembersFromLast(done: seq<Member>, t: seq<byte>)
    requires Peek(t) != ',' as int
    ensures MembersFrom(done, t) == if Peek(t) == '}' as int then Ok(done, t[1..]) else Rejected
  {
  }

  /** The loop of parse_object: further members, then the closing brace. */
  method ParseMoreMembers(first: CJson, s: seq<byte>,
      ghost kids0: seq<CJson>, ghost members0: seq<Member>, ghost sub0: set<object>)
    returns (r: Pointer, ghost kids: seq<CJson>, ghost members: seq<Member>, ghost sub: set<object>)
    requires kids0 != [] && first == kids0[|kids0| - 1] && MembersFrom(members0, s) != Undefined
    requires Growing(kids0, Values(members0), sub0, null) && Keyed(kids0, members0, sub0)
    modifies first`next
    ensures MembersFrom(members0, s).Ok? ==>
      && r == Some(MembersFrom(members0, s).rest) && members == MembersFrom(members0, s).value
      && kids0 <= kids && sub0 <= sub && fresh(sub - sub0)
      && Growing(kids, Values(members), sub, null) && Keyed(kids, members, sub)
    ensures MembersFrom(members0, s).Rejected? ==> r == None
    decreases |s|, 4
  {
    hide ParseMember, ParseMembers, MembersFrom, Growing, Keyed, CJson.Denotes, CJson.Named, Skip, Values;
    var value, child := s, first;
    kids, members, sub := kids0, members0, sub0;
    while Peek(value) == ',' as int
      invariant kids0 <= kids && sub0 <= sub && fresh(sub - sub0)
      invariant child == kids[|kids| - 1] && (child == first || fresh(child))
      invariant Growing(kids, Values(members), sub, null) && Keyed(kids, members, sub)
      invariant MembersFrom(members0, s) == MembersFrom(members, value)
      invariant |value| <= |s|
      decreases |value|
    {
      MembersFromNext(members, value);
      value := value[1..];
      var p;
      child, p, sub := ParseNextMember(child, value, kids, members, sub);
      if p == None {
        return None, kids, members, sub;
      }
      members, kids := members + [ParseMember(value).value], kids + [child];
      value := SkipBlanks(p.value);
    }
    MembersFromLast(members, value);
    r := if Peek(value) == '}' as int then Some(value[1..]) else None;
  }

  method ParseFirstMember(s: seq<byte>) returns (child: CJson, r: Pointer, ghost sub: set<object>)
    requires ParseMember(s) != Undefined
    ensures fresh(child) && fresh(sub)
    ensures ParseMember(s).Ok? ==>
      && r == Some(ParseMember(s).rest)
      && Growing([child], Values([ParseMember(s).value]), sub, null) && Keyed([child], [ParseMember(s).value], sub)
    ensures ParseMember(s).Rejected? ==> r == None
    decreases |s|, 3
  {
    hide ParseMember, Growing, Keyed, CJson.Denotes, Values;
    child := new CJson();
    r := ParseMemberInto(child, s);
    sub := {};
    if r != None {
      ghost var m := ParseMember(s).value;
      sub := {child, child.name} + child.sub;
      GrowFirst(child, m.value, sub);
      KeyNext([], [], {}, child, m, sub);
      assert [] + [child] == [child] && [] + [m] == [m] && Values([m]) == [m.value];
    }
  }

  /** parse_object. */
  method ParseObjectInto(item: CJson, s: seq<byte>) returns (r: Pointer)
    requires Peek(s) == '{' as int && item.Blank() && ParseObject(s) != Undefined
    modifies item`ty, item`child, item`kids, item`sub
    ensures ParseObject(s).Ok? ==>
      r == Some(ParseObject(s).rest) && item.Denotes(ParseObject(s).value) && fresh(item.sub)
    ensures ParseObject(s).Rejected? ==> r == None
    decreases |s|, 0
  {
    hide ParseMember, ParseMembers, MembersFrom, Growing, Keyed, CJson.Denotes, CJson.Named, Skip, Values;
    item.ty := OBJECT;
    var value := SkipBlanks(s[1..]);
    if Peek(value) == '}' as int {
      NoChildren(item);
      return Some(value[1..]);
    }
    MembersFromFirst(value);
    var child, p;
    ghost var sub;
    child, p, sub := ParseFirstMember(value);
    item.child := child;
    if p == None {
      return None;
    }
    ghost var members, kids := [ParseMember(value).value], [child];
    value := SkipBlanks(p.value);
    r, kids, members, sub := ParseMoreMembers(child, value, kids, members, sub);
    if r != None {
      CloseObject(item, kids, members, sub);
    }
  }

  /** cJSON_Parse: the tree of the value at the front of the text, or NULL. */
  method Parse(text: seq<byte>) returns (c: CJson?)
    requires ParseValue(Skip(text)) != Undefined
    ensures ParseValue(Skip(text)).Ok? <==> c != null
    ensures c != null ==> fresh(c) && fresh(c.sub) && c.next == null && c.Denotes(ParseValue(Skip(text)).value)
  {
    c := new CJson();
    var value := SkipBlanks(text);
    var p := ParseValueInto(c, value);
    if p == None {
      c := null;
    }
  }
}
