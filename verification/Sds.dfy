/**
 Dynamic strings: a length, the spare room, and a buffer that always ends in a NUL.
 Growing doubles, so the bytes moved by reallocation stay linear in the final length.
 */
module Sds {
  import opened Bytes

  /** The arithmetic of a string: its length, its spare bytes, and the bytes moved by reallocations so far. */
  datatype Growth = Growth(len: nat, free: nat, moved: nat)

  /** Appending n bytes. */
  function Grow(g: Growth, n: nat): Growth {
    if g.free >= n then Growth(g.len + n, g.free - n, g.moved)
    else Growth(g.len + n, g.len + n, g.moved + g.len)
  }

  function GrowAll(g: Growth, ns: seq<nat>): Growth
    decreases |ns|
  {
    if ns == [] then g else GrowAll(Grow(g, ns[0]), ns[1..])
  }

  function Sum(ns: seq<nat>): nat {
    if ns == [] then 0 else ns[0] + Sum(ns[1..])
  }

  ghost predicate Amortised(g: Growth) {
    g.moved <= g.len + g.free <= 2 * g.len && (g.len > 0 ==> g.moved < 2 * g.len)
  }

  lemma {:induction false} GrowAllAmortised(g: Growth, ns: seq<nat>)
    requires Amortised(g)
    ensures Amortised(GrowAll(g, ns)) && GrowAll(g, ns).len == g.len + Sum(ns)
    decreases |ns|
  {
    if ns != [] {
      GrowAllAmortised(Grow(g, ns[0]), ns[1..]);
    }
  }

  /** Whatever is appended to an empty string, reallocations move less than twice the final length. */
  lemma {:induction false} GrowthIsLinear(ns: seq<nat>)
    requires Sum(ns) > 0
    ensures var g := GrowAll(Growth(0, 0, 0), ns);
      g.len == Sum(ns) && g.moved < 2 * g.len && g.len + g.free <= 2 * g.len
  {
    GrowAllAmortised(Growth(0, 0, 0), ns);
  }

  /** A position that counts from the end when negative, and not below 0. */
  function Position(n: nat, p: int): nat {
    if p >= 0 then p else if n + p >= 0 then n + p else 0
  }

  /** The bytes from start to end inclusive, as far as there are any. */
  function RangeOf(s: seq<byte>, start: int, end: int): (r: seq<byte>) {
    var first, last := Position(|s|, start), Position(|s|, end);
    var stop := if last < |s| then last + 1 else |s|;
    if first < stop then s[first..stop] else []
  }

  /**
   Ranges in terms of plain slices. A negative position counts from the end, and before the first byte it is the first;
   a range that ends beyond the last byte ends there, and one that begins there or behind its end is empty.
   */
  lemma RangeIs(s: seq<byte>, start: int, end: int, k: nat)
    ensures 0 < k <= |s| ==> RangeOf(s, 0 - k, end) == RangeOf(s, |s| - k, end) && RangeOf(s, start, 0 - k) == RangeOf(s, start, |s| - k)
    ensures k > |s| ==> RangeOf(s, 0 - k, end) == RangeOf(s, 0, end) && RangeOf(s, start, 0 - k) == RangeOf(s, start, 0)
    ensures 0 <= start <= end < |s| ==> RangeOf(s, start, end) == s[start..end + 1]
    ensures 0 <= start < |s| <= end ==> RangeOf(s, start, end) == s[start..]
    ensures 0 <= end < start || start >= |s| ==> RangeOf(s, start, end) == []
  {
  }

  /** memmove to the front of the same buffer. */
  method Memmove(a: array<byte>, from: nat, n: nat)
    requires from + n <= a.Length
    modifies a
    ensures a[..n] == old(a[from..from + n])
    ensures a[n..] == old(a[n..])
  {
    forall i | 0 <= i < n {
      a[i] := a[from + i];
    }
  }

  lemma SliceOfPrefix(a: array<byte>, n: nat, i: nat, j: nat)
    requires i <= j <= n <= a.Length
    ensures a[..n][i..j] == a[i..j]
  {
    var s, t := a[..n][i..j], a[i..j];
    assert forall k :: 0 <= k < |t| ==> s[k] == t[k];
  }

  class Sds {
    var len: nat
    var free: nat
    var buf: array<byte>
    ghost var moved: nat

    ghost predicate Valid()
      reads this, buf
    {
      buf.Length == len + free + 1 && buf[len] == NUL
    }

    ghost function Contents(): seq<byte>
      reads this, buf
      requires Valid()
    {
      buf[..len]
    }

    ghost function Size(): Growth
      reads this
    {
      Growth(len, free, moved)
    }

    constructor NewLen(init: seq<byte>)
      ensures Valid() && fresh(buf)
      ensures Contents() == init && Size() == Growth(|init|, 0, 0)
    {
      len, free, moved := |init|, 0, 0;
      buf := new byte[|init| + 1](_ => NUL);
      new;
      forall i | 0 <= i < |init| {
        buf[i] := init[i];
      }
    }

    /** Makes the spare room at least addlen, doubling when it has to reallocate. */
    method MakeRoomFor(addlen: nat)
      requires Valid()
      modifies this
      ensures Valid() && (buf == old(buf) || fresh(buf))
      ensures Contents() == old(Contents())
      ensures Size() == if old(free) >= addlen then old(Size())
        else Growth(old(len), 2 * (old(len) + addlen) - old(len), old(moved) + old(len))
    {
      if free >= addlen {
        return;
      }
      var newlen := (len + addlen) * 2;
      var newbuf := new byte[newlen + 1];
      forall i | 0 <= i <= len {
        newbuf[i] := buf[i];
      }
      buf := newbuf;
      free := newlen - len;
      moved := moved + len;
    }

    /** Appends bytes. */
    method CatLen(t: seq<byte>)
      requires Valid()
      modifies this, buf
      ensures Valid() && (buf == old(buf) || fresh(buf))
      ensures Contents() == old(Contents()) + t
      ensures Size() == Grow(old(Size()), |t|)
    {
      var curlen := len;
      MakeRoomFor(|t|);
      forall i | 0 <= i < |t| {
        buf[curlen + i] := t[i];
      }
      len := curlen + |t|;
      free := free - |t|;
      buf[curlen + |t|] := NUL;
    }

    /** Keeps only a range of the bytes, moved to the front of the same buffer. */
    method Range(start0: int, end0: int)
      requires Valid()
      modifies this, buf
      ensures Valid() && buf == old(buf)
      ensures Contents() == RangeOf(old(Contents()), start0, end0)
      ensures len + free == old(len) + old(free)
    {
      if len == 0 {
        return;
      }
      hide RangeOf;
      ghost var s := buf[..len];
      var start, newlen := Clip(len, start0, end0);
      ghost var kept := if newlen > 0 then s[start..start + newlen] else [];
      if newlen > 0 {
        SliceOfPrefix(buf, len, start, start + newlen);
      }
      if start != 0 && newlen != 0 {
        Memmove(buf, start, newlen);
      }
      assert buf[..newlen] == kept == RangeOf(s, start0, end0);
      buf[newlen] := NUL;
      free := free + (len - newlen);
      len := newlen;
    }
  }

  /** The bounds computation of sdsrange. */
  method Clip(len: nat, start0: int, end0: int) returns (start: nat, newlen: nat)
    requires len > 0
    ensures newlen > 0 ==> start == Position(len, start0) && start + newlen <= len
    ensures forall s: seq<byte> :: |s| == len ==>
      RangeOf(s, start0, end0) == if newlen > 0 then s[start..start + newlen] else []
  {
    start := Position(len, start0);
    var end: int := Position(len, end0);
    newlen := if start > end then 0 else end - start + 1;
    if newlen != 0 {
      if start >= len {
        newlen := 0;
      } else if end >= len {
        end := len - 1;
        newlen := end - start + 1;
      }
    } else {
      start := 0;
    }
  }
}
