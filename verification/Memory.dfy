/** C strings in byte buffers. */
module Memory {
  import opened Bytes

  /** The buffer holds the string s and its terminator. */
  ghost predicate CStr(a: array<byte>, s: seq<byte>)
    reads a
  {
    |s| < a.Length && a[..|s|] == s && a[|s|] == NUL && NUL !in s
  }

  /** Length of the C string at the start of s. */
  function StrLen(s: seq<byte>): (n: nat)
    requires NUL in s
    ensures n < |s| && s[n] == NUL && NUL !in s[..n]
  {
    if s[0] == NUL then 0 else StrLen(s[1..]) + 1
  }

  /** strlen. */
  method Strlen(a: array<byte>, ghost s: seq<byte>) returns (n: nat)
    requires CStr(a, s)
    ensures n == |s|
  {
    n := 0;
    while a[n] != NUL
      invariant n <= |s|
      decreases |s| - n
    {
      assert n < |s| && a[n] == s[n];
      n := n + 1;
    }
    assert a[..|s|] == s;
  }

  /** memcpy to position pos of a buffer. */
  method Put(a: array<byte>, pos: nat, s: seq<byte>) returns (next: nat)
    requires pos + |s| <= a.Length
    modifies a
    ensures next == pos + |s|
    ensures a[..next] == old(a[..pos]) + s
  {
    forall i | 0 <= i < |s| {
      a[pos + i] := s[i];
    }
    next := pos + |s|;
  }
}
