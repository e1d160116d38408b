/** Bernstein's hash function and tables whose size is a power of two. */
module Hashing {
  import opened Bytes

  /** Bernstein's hash, in 32-bit arithmetic. */
  function HashFrom(key: seq<byte>, h: int): (r: int)
    requires 0 <= h < 0x1_0000_0000
    ensures 0 <= r < 0x1_0000_0000
    decreases |key|
  {
    if key == [] then h else HashFrom(key[1..], (h * 33 + key[0]) % 0x1_0000_0000)
  }

  function Hash(key: seq<byte>): (h: int)
    ensures 0 <= h < 0x1_0000_0000
  {
    HashFrom(key, 5381)
  }

  function Pow33(n: nat): (p: nat)
    ensures p > 0
  {
    if n == 0 then 1 else 33 * Pow33(n - 1)
  }

  /** The bytes of a key as the digits of a number to base 33, the last one counting one. */
  function Base33(key: seq<byte>): nat {
    if key == [] then 0 else 33 * Base33(key[..|key| - 1]) + key[|key| - 1]
  }

  lemma {:induction false} HashFromAppend(key: seq<byte>, c: byte, h: int)
    requires 0 <= h < 0x1_0000_0000
    ensures HashFrom(key + [c], h) == (HashFrom(key, h) * 33 + c) % 0x1_0000_0000
    decreases |key|
  {
    if key == [] {
      assert HashFrom([], (h * 33 + c) % 0x1_0000_0000) == (h * 33 + c) % 0x1_0000_0000;
      assert (key + [c])[1..] == [];
    } else {
      assert (key + [c])[1..] == key[1..] + [c];
      HashFromAppend(key[1..], c, (h * 33 + key[0]) % 0x1_0000_0000);
    }
  }

  lemma WrapOnce(x: int, c: int)
    ensures (x % 0x1_0000_0000 * 33 + c) % 0x1_0000_0000 == (x * 33 + c) % 0x1_0000_0000
  {
    var q := x / 0x1_0000_0000;
    assert x == q * 0x1_0000_0000 + x % 0x1_0000_0000;
    assert x * 33 + c == (x % 0x1_0000_0000 * 33 + c) + (q * 33) * 0x1_0000_0000;
  }

  /** The hash in closed form: 5381 in front of the bytes, to base 33, wrapped once. */
  lemma {:induction false} HashIs(key: seq<byte>)
    ensures Hash(key) == (5381 * Pow33(|key|) + Base33(key)) % 0x1_0000_0000
  {
    if key != [] {
      var n := |key| - 1;
      var front, c := key[..n], key[n];
      assert key == front + [c];
      HashIs(front);
      HashFromAppend(front, c, 5381);
      var x := 5381 * Pow33(n) + Base33(front);
      WrapOnce(x, c);
      assert x * 33 + c == 5381 * Pow33(n + 1) + Base33(key);
    }
  }

  /** dictGenHashFunction. */
  method GenHashFunction(buf: seq<byte>) returns (hash: int)
    ensures hash == Hash(buf)
  {
    hash := 5381;
    var i := 0;
    while i < |buf|
      invariant 0 <= i <= |buf| && 0 <= hash < 0x1_0000_0000
      invariant HashFrom(buf[i..], hash) == Hash(buf)
    {
      assert buf[i..][1..] == buf[i + 1..];
      hash := (hash * 32 + hash + buf[i]) % 0x1_0000_0000;
      i := i + 1;
    }
  }

  /** Bitwise and. */
  function And(a: nat, b: nat): nat {
    if a == 0 || b == 0 then 0 else 2 * And(a / 2, b / 2) + (a % 2) * (b % 2)
  }

  ghost predicate PowerOfTwo(n: int)
    decreases n
  {
    n == 1 || (n > 1 && n % 2 == 0 && PowerOfTwo(n / 2))
  }

  lemma Product(a: nat, b: nat)
    ensures a * b >= 0
  {
  }

  lemma Multiple(size: nat, k: int)
    ensures k > 0 ==> size * k >= size
    ensures k < 0 ==> size * k <= 0 - size
  {
    if k > 0 {
      Product(size, k - 1);
      assert size * k == size * (k - 1) + size;
    } else if k < 0 {
      Product(size, -1 - k);
      assert size * (-1 - k) == 0 - size - size * k;
    }
  }

  lemma RemainderIs(h: int, size: nat, q: int, r: int)
    requires size > 0 && h == size * q + r && 0 <= r < size
    ensures h % size == r
  {
    var d, m := h / size, h % size;
    assert h == size * d + m;
    assert size * (q - d) == size * q - size * d;
    Multiple(size, q - d);
  }

  lemma HalfRemainder(h: nat, half: nat)
    requires half > 0
    ensures h % (2 * half) == 2 * ((h / 2) % half) + h % 2
  {
    var q, x := h / 2 / half, (h / 2) % half;
    assert h / 2 == half * q + x;
    assert 2 * (half * q) == (2 * half) * q;
    RemainderIs(h, 2 * half, q, 2 * x + h % 2);
  }

  /** Masking with a power of two less one is the remainder. */
  lemma {:induction false} MaskIsRemainder(h: nat, size: nat)
    requires PowerOfTwo(size)
    ensures And(h, size - 1) == h % size
    decreases size
  {
    if size > 1 {
      MaskIsRemainder(h / 2, size / 2);
      HalfRemainder(h, size / 2);
    }
  }

  /** Of the powers of two there is one at least from each number to below its double. */
  lemma {:induction false} OnePower(a: nat, b: nat)
    requires PowerOfTwo(a) && PowerOfTwo(b) && a <= b < 2 * a
    ensures a == b
    decreases a
  {
    if a > 1 {
      OnePower(a / 2, b / 2);
    }
  }

  const INITIAL_SIZE := 4

  /** _dictNextPower: the first power of two that is at least size, from the initial size up. */
  method NextPower(size: nat) returns (i: nat)
    ensures i >= size && i >= INITIAL_SIZE && PowerOfTwo(i)
    ensures i > INITIAL_SIZE ==> i / 2 < size
  {
    i := INITIAL_SIZE;
    while i < size
      invariant i >= INITIAL_SIZE && PowerOfTwo(i)
      invariant i > INITIAL_SIZE ==> i / 2 < size
      decreases size - i
    {
      i := i * 2;
    }
  }
}
