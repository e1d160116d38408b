/**
 What the parser refuses: bytes that start no value, and arrays and objects in which something is wrong behind any
 number of good items or members. An error inside a value is an error of everything around it.
 */
module JsonReject {
  import opened Bytes
  import opened Decimal
  import opened JsonSpec
  import opened JsonRoundTrip
  import opened JsonText

  /** No word, quote, sign, digit or bracket: nothing starts here. */
  lemma NoValue(s: seq<byte>)
    requires !(['n' as int, 'u' as int, 'l' as int, 'l' as int] <= s)
    requires !(['f' as int, 'a' as int, 'l' as int, 's' as int, 'e' as int] <= s)
    requires !(['t' as int, 'r' as int, 'u' as int, 'e' as int] <= s)
    requires s != [] ==> s[0] !in {'\"' as int, '-' as int, '[' as int, '{' as int} && !('0' as int <= s[0] <= '9' as int)
    ensures ParseValue(s) == Rejected
  {
  }

  /** Where something other than a blank comes. */
  predicate Starts(u: seq<byte>) {
    u == [] || u[0] > 32
  }

  lemma BlankBefore(w: seq<byte>, u: seq<byte>)
    requires Blank(w) && Starts(u)
    ensures Skip(w + u) == u
  {
    SkipBlank(w, u);
    SkipNone(u);
  }

  // ----- Arrays -----

  /** Items with a comma behind each. */
  ghost function OpenItems(items: seq<Item>): seq<byte>
    requires forall i :: 0 <= i < |items| ==> ItemOk(items[i])
  {
    if items == [] then [] else WriteItem(items[0]) + ([',' as int] + OpenItems(items[1..]))
  }

  /** An item that is no value. */
  lemma ItemBad(before: seq<byte>, u: seq<byte>)
    requires Blank(before) && Starts(u) && ParseValue(u).Rejected?
    ensures ParseItems(before + u).Rejected?
  {
    hide ParseValue, Skip;
    BlankBefore(before, u);
  }

  /** An item followed by neither a comma nor the closing bracket, be it the end of the text. */
  lemma ItemUnclosed(i: Item, t: seq<byte>)
    requires ItemOk(i) && Starts(t) && Stops(i.after + t) && (t == [] || (t[0] != ',' as int && t[0] != ']' as int))
    ensures ParseItems(WriteItem(i) + t).Rejected?
  {
    hide ParseValue, Skip, Write, Meaning, TextOk, Stops, Blank;
    var u := Write(i.value) + (i.after + t);
    FirstOf(i.value);
    assert WriteItem(i) + t == i.before + u;
    BlankBefore(i.before, u);
    TextReads(i.value, i.after + t);
    BlankBefore(i.after, t);
  }

  lemma NextRejects(s: seq<byte>, u: seq<byte>, v: Json, rest: seq<byte>)
    requires Skip(s) == u && ParseValue(u) == Ok(v, rest) && Peek(Skip(rest)) == ',' as int && ParseItems(Skip(rest)[1..]).Rejected?
    ensures ParseItems(s).Rejected?
  {
  }

  lemma {:induction false} ItemsReject(items: seq<Item>, w: seq<byte>)
    requires (forall i :: 0 <= i < |items| ==> ItemOk(items[i])) && ParseItems(w).Rejected?
    ensures ParseItems(OpenItems(items) + w).Rejected?
    decreases |items|
  {
    hide ParseValue, ParseItems, Skip, Write, Meaning, TextOk, Stops, Blank;
    if items == [] {
      assert OpenItems(items) + w == w;
    } else {
      var i, rest := items[0], OpenItems(items[1..]) + w;
      ItemsReject(items[1..], w);
      var comma := [',' as int] + rest;
      var u := Write(i.value) + (i.after + comma);
      FirstOf(i.value);
      assert OpenItems(items) + w == i.before + u;
      BlankBefore(i.before, u);
      BlankStops(i.after, ',' as int, rest);
      TextReads(i.value, i.after + comma);
      assert comma[1..] == rest;
      NextRejects(i.before + u, u, Meaning(i.value), i.after + comma);
    }
  }

  /** An array that goes wrong at some item is refused. */
  lemma ArrayRejects(items: seq<Item>, w: seq<byte>)
    requires (forall i :: 0 <= i < |items| ==> ItemOk(items[i])) && ParseItems(w).Rejected?
    requires items == [] ==> Peek(Skip(w)) != ']' as int
    ensures ParseValue(['[' as int] + (OpenItems(items) + w)).Rejected?
  {
    hide ParseValue, ParseItems, Skip, OpenItems;
    var u := OpenItems(items) + w;
    var s := ['[' as int] + u;
    BracketReads(s);
    assert s[1..] == u;
    ItemsReject(items, w);
    SkipItems(u);
    OpenStarts(items, w);
  }

  lemma SkipItems(s: seq<byte>)
    ensures ParseItems(Skip(s)) == ParseItems(s)
  {
    SkipTwice(s);
  }

  lemma {:induction false} SkipTwice(s: seq<byte>)
    ensures Skip(Skip(s)) == Skip(s)
    decreases |s|
  {
    if s != [] && s[0] != NUL && s[0] <= 32 {
      SkipTwice(s[1..]);
    }
  }

  lemma OpenStarts(items: seq<Item>, w: seq<byte>)
    requires forall i :: 0 <= i < |items| ==> ItemOk(items[i])
    requires items == [] ==> Peek(Skip(w)) != ']' as int
    ensures Peek(Skip(OpenItems(items) + w)) != ']' as int
  {
    hide Skip, Write, TextOk, Blank;
    if items == [] {
      assert OpenItems(items) + w == w;
    } else {
      var i := items[0];
      FirstOf(i.value);
      var u := Write(i.value) + (i.after + ([',' as int] + OpenItems(items[1..])) + w);
      assert OpenItems(items) + w == i.before + u;
      BlankBefore(i.before, u);
    }
  }

  // ----- Objects -----

  ghost function OpenEntries(entries: seq<Entry>): seq<byte>
    requires forall i :: 0 <= i < |entries| ==> EntryOk(entries[i])
  {
    if entries == [] then [] else WriteEntry(entries[0]) + ([',' as int] + OpenEntries(entries[1..]))
  }

  /** A member whose key is not a string. */
  lemma KeyBad(before: seq<byte>, u: seq<byte>)
    requires Blank(before) && Starts(u) && (u == [] || u[0] != '\"' as int)
    ensures ParseMembers(before + u).Rejected?
  {
    hide Skip;
    BlankBefore(before, u);
  }

  /** A key followed by no colon. */
  lemma ColonBad(before: seq<byte>, key: seq<Char>, mid: seq<byte>, u: seq<byte>)
    requires Blank(before) && CharsOk(key) && Blank(mid) && Starts(u) && (u == [] || u[0] != ':' as int)
    ensures ParseMembers(before + (WriteString(key) + (mid + u))).Rejected?
  {
    hide Skip, WriteString, CharsOk, ParseString;
    StringStarts(key, mid + u);
    BlankBefore(before, WriteString(key) + (mid + u));
    StringTextReads(key, mid + u);
    BlankBefore(mid, u);
  }

  /** A colon followed by no value. */
  lemma ValueBad(before: seq<byte>, key: seq<Char>, mid: seq<byte>, mid': seq<byte>, u: seq<byte>)
    requires Blank(before) && CharsOk(key) && Blank(mid) && Blank(mid') && Starts(u) && ParseValue(u).Rejected?
    ensures ParseMembers(before + (WriteString(key) + (mid + ([':' as int] + (mid' + u))))).Rejected?
  {
    hide Skip, WriteString, CharsOk, ParseString, ParseValue;
    var colon := [':' as int] + (mid' + u);
    StringStarts(key, mid + colon);
    BlankBefore(before, WriteString(key) + (mid + colon));
    StringTextReads(key, mid + colon);
    BlankBefore(mid, colon);
    assert colon[1..] == mid' + u;
    BlankBefore(mid', u);
  }

  /** A member followed by neither a comma nor the closing brace. */
  lemma EntryUnclosed(e: Entry, t: seq<byte>)
    requires EntryOk(e) && Starts(t) && Stops(e.after + t) && (t == [] || (t[0] != ',' as int && t[0] != '}' as int))
    ensures ParseMembers(WriteEntry(e) + t).Rejected?
  {
    hide Skip, WriteEntry, ParseMember, Meaning, CharsBytes, Stops, TextOk, CharsOk;
    EntryReads(e, t);
    BlankBefore(e.after, t);
  }

  lemma NextMemberRejects(s: seq<byte>, m: Member, rest: seq<byte>)
    requires ParseMember(s) == Ok(m, rest) && Peek(Skip(rest)) == ',' as int && ParseMembers(Skip(rest)[1..]).Rejected?
    ensures ParseMembers(s).Rejected?
  {
    hide ParseMember;
  }

  lemma {:induction false} EntriesReject(entries: seq<Entry>, w: seq<byte>)
    requires (forall i :: 0 <= i < |entries| ==> EntryOk(entries[i])) && ParseMembers(w).Rejected?
    ensures ParseMembers(OpenEntries(entries) + w).Rejected?
    decreases |entries|
  {
    hide ParseMember, ParseMembers, Skip, WriteEntry, Meaning, CharsBytes, TextOk, CharsOk, Stops, Blank;
    if entries == [] {
      assert OpenEntries(entries) + w == w;
    } else {
      var e, rest := entries[0], OpenEntries(entries[1..]) + w;
      EntriesReject(entries[1..], w);
      var comma := [',' as int] + rest;
      assert OpenEntries(entries) + w == WriteEntry(e) + comma;
      BlankStops(e.after, ',' as int, rest);
      EntryReads(e, comma);
      assert comma[1..] == rest;
      NextMemberRejects(WriteEntry(e) + comma, Member(CharsBytes(e.key), Meaning(e.value)), e.after + comma);
    }
  }

  /** An object that goes wrong at some member is refused. */
  lemma ObjectRejects(entries: seq<Entry>, w: seq<byte>)
    requires (forall i :: 0 <= i < |entries| ==> EntryOk(entries[i])) && ParseMembers(w).Rejected?
    requires entries == [] ==> Peek(Skip(w)) != '}' as int
    ensures ParseValue(['{' as int] + (OpenEntries(entries) + w)).Rejected?
  {
    hide ParseValue, ParseMembers, Skip, OpenEntries;
    var u := OpenEntries(entries) + w;
    var s := ['{' as int] + u;
    BraceReads(s);
    assert s[1..] == u;
    EntriesReject(entries, w);
    SkipTwice(u);
    MembersSkip(u);
    OpenEntriesStart(entries, w);
  }

  lemma OpenEntriesStart(entries: seq<Entry>, w: seq<byte>)
    requires forall i :: 0 <= i < |entries| ==> EntryOk(entries[i])
    requires entries == [] ==> Peek(Skip(w)) != '}' as int
    ensures Peek(Skip(OpenEntries(entries) + w)) != '}' as int
  {
    hide Skip, WriteEntry, EntryOk, Blank;
    if entries == [] {
      assert OpenEntries(entries) + w == w;
    } else {
      var e := entries[0];
      EntryStarts(e);
      var s := OpenEntries(entries) + w;
      assert WriteEntry(e) <= s;
      var r := s[|e.before|..];
      assert s == e.before + r && r[0] == WriteEntry(e)[|e.before|];
      BlankBefore(e.before, r);
    }
  }

  // ----- What it does not refuse -----

  /** A string that is never closed is taken up to the end of the text. */
  lemma {:induction false} UnclosedReads(cs: seq<Char>)
    requires CharsOk(cs)
    ensures Unescape(WriteChars(cs)) == Ok(CharsBytes(cs), [])
  {
    hide WriteChar, CharBytes, CharOk;
    if cs != [] {
      hide Unescape;
      CharReads(cs[0], WriteChars(cs[1..]));
      UnclosedReads(cs[1..]);
    }
  }
}
