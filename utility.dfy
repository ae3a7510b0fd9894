/**
 The byte codec helpers of the chat library (ChatClassLibrary/Utility.cs):
 big-endian conversion of 32- and 64-bit integers, concatenation and
 slicing of arrays, and the hex rendering of a digest.

 The C# code goes through BitConverter, whose byte order is the host's; the
 model fixes a little-endian host (BitConverter.IsLittleEndian is true), so
 GetBytes yields the least significant byte first and Array.Reverse turns it
 into network order.
 */
module Utility {

  /** An element of a C# byte[]. */
  type Byte = b: int | 0 <= b < 256

  /** C# int. */
  type Int32 = x: int | -0x8000_0000 <= x < 0x8000_0000

  /** C# long. */
  type Int64 = x: int | -0x8000_0000_0000_0000 <= x < 0x8000_0000_0000_0000

  function Min(a: int, b: int): int { if a <= b then a else b }

  function Max(a: int, b: int): int { if a <= b then b else a }

  // ------------------------------------------------------------------------
  // Byte order, as specification functions
  // ------------------------------------------------------------------------

  function Pow256(n: nat): (r: nat)
    ensures r > 0
  {
    if n == 0 then 1 else 256 * Pow256(n - 1)
  }

  /** The n low-order bytes of u, most significant byte first. */
  function ToBigEndian(u: nat, n: nat): (r: seq<Byte>)
    ensures |r| == n
  {
    if n == 0 then [] else ToBigEndian(u / 256, n - 1) + [u % 256]
  }

  /** The unsigned value of a big-endian byte sequence. */
  function FromBigEndian(s: seq<Byte>): (r: nat)
    ensures r < Pow256(|s|)
  {
    if s == [] then 0 else FromBigEndian(s[..|s| - 1]) * 256 + s[|s| - 1]
  }

  /** The n low-order bytes of u, least significant byte first: what
      BitConverter.GetBytes yields on a little-endian host. */
  function ToLittleEndian(u: nat, n: nat): (r: seq<Byte>)
    ensures |r| == n
  {
    if n == 0 then [] else [u % 256] + ToLittleEndian(u / 256, n - 1)
  }

  /** The unsigned value of a little-endian byte sequence: what
      BitConverter.ToInt32/ToInt64 read on a little-endian host. */
  function FromLittleEndian(s: seq<Byte>): (r: nat)
    ensures r < Pow256(|s|)
  {
    if s == [] then 0 else s[0] + 256 * FromLittleEndian(s[1..])
  }

  /** Two's complement bit pattern of x in n bytes. */
  function Unsigned(x: int, n: nat): nat
  {
    x % Pow256(n)
  }

  /** The signed value of an n-byte two's complement bit pattern. */
  function Signed(u: nat, n: nat): int
  {
    if 2 * u >= Pow256(n) then u - Pow256(n) else u
  }

  /** The n-byte big-endian two's complement encoding of x. */
  function Encode(x: int, n: nat): (r: seq<Byte>)
    ensures |r| == n
  {
    ToBigEndian(Unsigned(x, n), n)
  }

  /** The signed value of a big-endian two's complement byte sequence. */
  function Decode(s: seq<Byte>): int
  {
    Signed(FromBigEndian(s), |s|)
  }

  function EncodeInt32(x: Int32): (r: seq<Byte>)
    ensures |r| == 4
  {
    Encode(x, 4)
  }

  function DecodeInt32(s: seq<Byte>): Int32
    requires |s| == 4
  {
    Pow256Values();
    Decode(s)
  }

  function EncodeInt64(x: Int64): (r: seq<Byte>)
    ensures |r| == 8
  {
    Encode(x, 8)
  }

  function DecodeInt64(s: seq<Byte>): Int64
    requires |s| == 8
  {
    Pow256Values();
    Decode(s)
  }

  /** BitConverter.ToInt32(bytes, startIndex) on a little-endian host. */
  function ToInt32(bytes: seq<Byte>, startIndex: nat): (r: Int32)
    requires startIndex + 4 <= |bytes|
    ensures r == DecodeInt32(Reversed(bytes[startIndex..startIndex + 4]))
  {
    var s := bytes[startIndex..startIndex + 4];
    ReversedTwice(s);
    LittleOfReversed(Reversed(s));
    Pow256Values();
    Signed(FromLittleEndian(s), 4)
  }

  /** BitConverter.ToInt64(bytes, startIndex) on a little-endian host. */
  function ToInt64(bytes: seq<Byte>, startIndex: nat): (r: Int64)
    requires startIndex + 8 <= |bytes|
    ensures r == DecodeInt64(Reversed(bytes[startIndex..startIndex + 8]))
  {
    var s := bytes[startIndex..startIndex + 8];
    ReversedTwice(s);
    LittleOfReversed(Reversed(s));
    Pow256Values();
    Signed(FromLittleEndian(s), 8)
  }

  /** The big-endian 32-bit integer stored at bytes[startIndex..startIndex+4];
      the array is left as it is. */
  function ReadInt32(bytes: seq<Byte>, startIndex: nat): (r: Int32)
    requires startIndex + 4 <= |bytes|
    ensures EncodeInt32(r) == bytes[startIndex..startIndex + 4]
  {
    Int32Encodings(bytes[startIndex..startIndex + 4]);
    DecodeInt32(bytes[startIndex..startIndex + 4])
  }

  /** The big-endian 64-bit integer stored at bytes[startIndex..startIndex+8]
      (the overload Utility.BytesToInt64(byte[], int) used by the message
      decoder); the array is left as it is. */
  function ReadInt64(bytes: seq<Byte>, startIndex: nat): (r: Int64)
    requires startIndex + 8 <= |bytes|
    ensures EncodeInt64(r) == bytes[startIndex..startIndex + 8]
  {
    Int64Encodings(bytes[startIndex..startIndex + 8]);
    DecodeInt64(bytes[startIndex..startIndex + 8])
  }

  function Reversed<T>(s: seq<T>): (r: seq<T>)
    ensures |r| == |s|
  {
    if s == [] then [] else Reversed(s[1..]) + [s[0]]
  }

  // ------------------------------------------------------------------------
  // Lemmas about byte order
  // ------------------------------------------------------------------------

  lemma Pow256Values()
    ensures Pow256(4) == 0x1_0000_0000
    ensures Pow256(8) == 0x1_0000_0000_0000_0000
  {
  }

  /** Byte i of the big-endian encoding is digit n-1-i of u in base 256: the
      most significant byte comes first. */
  lemma {:induction false} BigEndianDigits(u: nat, n: nat, i: nat)
    requires i < n
    ensures ToBigEndian(u, n)[i] == (u / Pow256(n - 1 - i)) % 256
  {
    if i == n - 1 {
      assert ToBigEndian(u, n)[i] == u % 256;
    } else {
      BigEndianDigits(u / 256, n - 1, i);
      DivDiv(u, 256, Pow256(n - 2 - i));
      assert ToBigEndian(u, n)[i] == ToBigEndian(u / 256, n - 1)[i];
    }
  }

  lemma DivDiv(u: nat, a: nat, b: nat)
    requires a > 0 && b > 0
    ensures u / a / b == u / (a * b)
  {
    var q := u / a;
    var r := u % a;
    var q2 := q / b;
    var r2 := q % b;
    assert u == a * q + r;
    assert q == b * q2 + r2;
    assert a * q == a * (b * q2) + a * r2;
    assert a * (b * q2) == (a * b) * q2;
    assert a * r2 <= a * (b - 1) by {
      MulAtLeast(a, b - r2);
      assert a * (b - r2) == a * b - a * r2;
    }
    assert a * (b - 1) == a * b - a;
    DivUnique(u, a * b, q2, a * r2 + r);
  }

  lemma {:induction false} MulAtLeast(m: int, d: int)
    requires m > 0 && d >= 1
    ensures m * d >= m
  {
    if d > 1 {
      MulAtLeast(m, d - 1);
      assert m * d == m * (d - 1) + m;
    }
  }

  /** Euclidean division is determined by its defining equation. */
  lemma DivUnique(u: int, m: int, q: int, r: int)
    requires m > 0 && 0 <= r < m && u == m * q + r
    ensures u / m == q && u % m == r
  {
    var q', r' := u / m, u % m;
    assert u == m * q' + r';
    assert m * (q - q') == r' - r;
    if q - q' >= 1 {
      MulAtLeast(m, q - q');
      assert false;
    }
    if q' - q >= 1 {
      MulAtLeast(m, q' - q);
      assert false;
    }
  }

  /** Decoding a big-endian encoding recovers every value that fits. */
  lemma {:induction false} BigEndianRoundTrip(u: nat, n: nat)
    requires u < Pow256(n)
    ensures FromBigEndian(ToBigEndian(u, n)) == u
  {
    if n > 0 {
      var s := ToBigEndian(u, n);
      var q, r := u / 256, u % 256;
      assert s == ToBigEndian(q, n - 1) + [r];
      assert s[..|s| - 1] == ToBigEndian(q, n - 1);
      assert u == q * 256 + r;
      assert q < Pow256(n - 1);
      BigEndianRoundTrip(q, n - 1);
    }
  }

  /** Every byte sequence is the big-endian encoding of its own value. */
  lemma {:induction false} BigEndianInverse(s: seq<Byte>)
    ensures ToBigEndian(FromBigEndian(s), |s|) == s
  {
    if s != [] {
      var p := s[..|s| - 1];
      BigEndianInverse(p);
      var v := FromBigEndian(s);
      assert v / 256 == FromBigEndian(p) && v % 256 == s[|s| - 1];
      assert s == p + [s[|s| - 1]];
    }
  }

  lemma {:induction false} ReversedSnoc<T>(p: seq<T>, x: T)
    ensures Reversed(p + [x]) == [x] + Reversed(p)
  {
    if p != [] {
      assert (p + [x])[1..] == p[1..] + [x];
      ReversedSnoc(p[1..], x);
    }
  }

  lemma {:induction false} ReversedAt<T>(s: seq<T>, k: nat)
    requires k < |s|
    ensures Reversed(s)[k] == s[|s| - 1 - k]
  {
    if k < |s| - 1 {
      ReversedAt(s[1..], k);
    }
  }

  lemma ReversedTwice<T>(s: seq<T>)
    ensures Reversed(Reversed(s)) == s
  {
    var r := Reversed(Reversed(s));
    forall i | 0 <= i < |s|
      ensures r[i] == s[i]
    {
      ReversedAt(Reversed(s), i);
      ReversedAt(s, |s| - 1 - i);
    }
  }

  /** The first k bytes of a reversed sequence are its last k bytes, reversed. */
  lemma {:induction false} ReversedPrefix<T>(s: seq<T>, k: nat)
    requires k <= |s|
    ensures Reversed(s)[..k] == Reversed(s[|s| - k..])
  {
    var t := s[|s| - k..];
    var a, b := Reversed(s)[..k], Reversed(t);
    assert |a| == k == |b|;
    forall i | 0 <= i < k
      ensures a[i] == b[i]
    {
      ReversedAt(s, i);
      ReversedAt(t, i);
    }
  }

  /** Reversing little-endian bytes gives big-endian bytes. */
  lemma {:induction false} ReversedLittleIsBig(u: nat, n: nat)
    ensures Reversed(ToLittleEndian(u, n)) == ToBigEndian(u, n)
  {
    if n > 0 {
      var s := ToLittleEndian(u, n);
      assert s[1..] == ToLittleEndian(u / 256, n - 1);
      ReversedLittleIsBig(u / 256, n - 1);
    }
  }

  /** Reading reversed bytes little-endian is reading them big-endian. */
  lemma {:induction false} LittleOfReversed(s: seq<Byte>)
    ensures FromLittleEndian(Reversed(s)) == FromBigEndian(s)
  {
    if s != [] {
      var p := s[..|s| - 1];
      var x := s[|s| - 1];
      assert s == p + [x];
      ReversedSnoc(p, x);
      var r := [x] + Reversed(p);
      assert r[1..] == Reversed(p);
      LittleOfReversed(p);
    }
  }

  /** Decode inverts Encode on every value that fits in n bytes. */
  lemma SignedRoundTrip(x: int, n: nat)
    requires -(Pow256(n) as int) <= 2 * x < Pow256(n)
    ensures Decode(Encode(x, n)) == x
  {
    var p := Pow256(n);
    if x >= 0 {
      DivUnique(x, p, 0, x);
    } else {
      DivUnique(x, p, -1, x + p);
    }
    BigEndianRoundTrip(Unsigned(x, n), n);
  }

  /** Encode inverts Decode: every n-byte sequence is an encoding. */
  lemma SignedEncodings(s: seq<Byte>)
    ensures Encode(Decode(s), |s|) == s
  {
    var p: int := Pow256(|s|);
    var v: int := FromBigEndian(s);
    if 2 * v >= p {
      DivUnique(v - p, p, -1, v);
    } else {
      DivUnique(v, p, 0, v);
    }
    BigEndianInverse(s);
  }

  lemma Int32RoundTrip(x: Int32)
    ensures DecodeInt32(EncodeInt32(x)) == x
  {
    Pow256Values();
    SignedRoundTrip(x, 4);
  }

  lemma Int32Encodings(s: seq<Byte>)
    requires |s| == 4
    ensures EncodeInt32(DecodeInt32(s)) == s
  {
    SignedEncodings(s);
  }

  lemma Int64RoundTrip(x: Int64)
    ensures DecodeInt64(EncodeInt64(x)) == x
  {
    Pow256Values();
    SignedRoundTrip(x, 8);
  }

  lemma Int64Encodings(s: seq<Byte>)
    requires |s| == 8
    ensures EncodeInt64(DecodeInt64(s)) == s
  {
    SignedEncodings(s);
  }

  /** ReadInt32 reads the first four bytes whatever follows them. */
  lemma ReadInt32OfEncoding(x: Int32, rest: seq<Byte>)
    ensures ReadInt32(EncodeInt32(x) + rest, 0) == x
  {
    assert (EncodeInt32(x) + rest)[0..4] == EncodeInt32(x);
    Int32RoundTrip(x);
  }

  /** ReadInt64 reads the eight bytes at its offset whatever surrounds them. */
  lemma ReadInt64OfEncoding(prefix: seq<Byte>, x: Int64, rest: seq<Byte>)
    ensures ReadInt64(prefix + EncodeInt64(x) + rest, |prefix|) == x
  {
    assert (prefix + EncodeInt64(x) + rest)[|prefix|..|prefix| + 8] == EncodeInt64(x);
    Int64RoundTrip(x);
  }

  // ------------------------------------------------------------------------
  // Arrays
  // ------------------------------------------------------------------------

  /** A fresh array holding s: new T[] { ... } in C#. */
  method ToArray<T>(s: seq<T>) returns (a: array<T>)
    ensures fresh(a) && a[..] == s
  {
    a := new T[|s|](i requires 0 <= i < |s| => s[i]);
  }

  /** Array.Reverse: reverses the whole array in place. */
  method Reverse<T>(a: array<T>)
    modifies a
    ensures a[..] == Reversed(old(a[..]))
  {
    var lo, hi := 0, a.Length - 1;
    while lo < hi
      invariant 0 <= lo && hi == a.Length - 1 - lo
      invariant lo <= a.Length - lo
      invariant forall k :: 0 <= k < lo ==> a[k] == old(a[a.Length - 1 - k])
      invariant forall k :: a.Length - lo <= k < a.Length ==> a[k] == old(a[a.Length - 1 - k])
      invariant forall k :: lo <= k < a.Length - lo ==> a[k] == old(a[k])
    {
      a[lo], a[hi] := a[hi], a[lo];
      lo, hi := lo + 1, hi - 1;
    }
    ghost var was := old(a[..]);
    forall k | 0 <= k < a.Length
      ensures a[..][k] == Reversed(was)[k]
    {
      ReversedAt(was, k);
    }
  }

  /** Array.Copy(source, sourceIndex, destination, destinationIndex, length)
      between two distinct arrays; the C# call throws when either window
      leaves its array, which the requires clauses exclude. */
  method ArrayCopy<T>(source: array<T>, sourceIndex: nat, destination: array<T>,
                      destinationIndex: nat, length: nat)
    requires source != destination
    requires sourceIndex + length <= source.Length
    requires destinationIndex + length <= destination.Length
    modifies destination
    ensures destination[..] == old(destination[..destinationIndex])
                               + source[sourceIndex..sourceIndex + length]
                               + old(destination[destinationIndex + length..])
  {
    for i := 0 to length
      invariant forall k :: destinationIndex <= k < destinationIndex + i ==>
                  destination[k] == source[sourceIndex + (k - destinationIndex)]
      invariant forall k :: 0 <= k < destination.Length && !(destinationIndex <= k < destinationIndex + i) ==>
                  destination[k] == old(destination[k])
    {
      destination[destinationIndex + i] := source[sourceIndex + i];
    }
  }

  /** BitConverter.GetBytes(value) followed by Array.Reverse: four bytes,
      most significant first (BigEndianDigits). */
  method IntToBytes(value: Int32) returns (bytes: array<Byte>)
    ensures fresh(bytes)
    ensures bytes[..] == EncodeInt32(value)
  {
    bytes := ToArray(ToLittleEndian(Unsigned(value, 4), 4));
    Reverse(bytes);
    ReversedLittleIsBig(Unsigned(value, 4), 4);
  }

  /** Reverses the caller's array in place, then reads its first four bytes
      little-endian; so the value is that of the LAST four bytes of the
      argument taken big-endian, and the argument is left reversed. */
  method BytesToInt(bytes: array<Byte>) returns (value: Int32)
    requires bytes.Length >= 4
    modifies bytes
    ensures bytes[..] == Reversed(old(bytes[..]))
    ensures value == DecodeInt32(old(bytes[..])[bytes.Length - 4..])
  {
    ghost var was := bytes[..];
    Reverse(bytes);
    value := ToInt32(bytes[..], 0);
    ReversedPrefix(was, 4);
    assert bytes[..][0..4] == Reversed(was[|was| - 4..]);
    LittleOfReversed(was[|was| - 4..]);
  }

  /** BitConverter.GetBytes(value) followed by Array.Reverse: eight bytes,
      most significant first. */
  method LongToBytes(value: Int64) returns (bytes: array<Byte>)
    ensures fresh(bytes)
    ensures bytes[..] == EncodeInt64(value)
  {
    bytes := ToArray(ToLittleEndian(Unsigned(value, 8), 8));
    Reverse(bytes);
    ReversedLittleIsBig(Unsigned(value, 8), 8);
  }

  /** Like BytesToInt, with eight bytes: the value of the last eight bytes of
      the argument, which is left reversed. */
  method BytesToLong(bytes: array<Byte>) returns (value: Int64)
    requires bytes.Length >= 8
    modifies bytes
    ensures bytes[..] == Reversed(old(bytes[..]))
    ensures value == DecodeInt64(old(bytes[..])[bytes.Length - 8..])
  {
    ghost var was := bytes[..];
    Reverse(bytes);
    value := ToInt64(bytes[..], 0);
    ReversedPrefix(was, 8);
    assert bytes[..][0..8] == Reversed(was[|was| - 8..]);
    LittleOfReversed(was[|was| - 8..]);
  }

  /** A five-byte array whose first four bytes hold 1 big-endian: BytesToInt
      yields 256, the value of its last four bytes, not 1. */
  lemma BytesToIntReadsLastFour()
    ensures var s: seq<Byte> := [0, 0, 0, 1, 0];
            DecodeInt32(s[|s| - 4..]) == 256 && ReadInt32(s, 0) == 1
  {
    var s: seq<Byte> := [0, 0, 0, 1, 0];
    Pow256Values();
    assert s[|s| - 4..] == [0, 0, 1, 0];
    assert s[0..4] == [0, 0, 0, 1];
    assert [0, 0, 1, 0][..3] == [0, 0, 1];
    assert [0, 0, 1][..2] == [0, 0];
    assert [0, 0, 0, 1][..3] == [0, 0, 0];
    assert [0, 0, 0][..2] == [0, 0];
    assert [0, 0][..1] == [0];
    assert [0][..0] == [];
  }

  /** BytesToInt itself on that array: it returns 256, where the first four
      bytes encode 1, and leaves the caller's array reversed. */
  method BytesToIntOnFiveBytes() returns (bytes: array<Byte>, value: Int32)
    ensures value == 256 && ReadInt32([0, 0, 0, 1, 0], 0) == 1
    ensures bytes[..] == [0, 1, 0, 0, 0]
  {
    bytes := new Byte[5];
    bytes[0], bytes[1], bytes[2], bytes[3], bytes[4] := 0, 0, 0, 1, 0;
    ghost var s: seq<Byte> := bytes[..];
    assert s == [0, 0, 0, 1, 0];
    BytesToIntReadsLastFour();
    FiveReversed(s);
    value := BytesToInt(bytes);
  }

  /** The reversal of that five-byte array. */
  lemma FiveReversed(s: seq<Byte>)
    requires s == [0, 0, 0, 1, 0]
    ensures Reversed(s) == [0, 1, 0, 0, 0]
  {
    forall k | 0 <= k < 5
      ensures Reversed(s)[k] == [0, 1, 0, 0, 0][k]
    {
      ReversedAt(s, k);
    }
  }

  /** On the four bytes IntToBytes produces, BytesToInt gives the value
      back, for every 32-bit value. */
  method IntRoundTrip(x: Int32) returns (y: Int32)
    ensures y == x
  {
    var bytes := IntToBytes(x);
    ghost var encoded := bytes[..];
    y := BytesToInt(bytes);
    assert encoded[|encoded| - 4..] == encoded;
    Int32RoundTrip(x);
  }

  /** On the eight bytes LongToBytes produces, BytesToLong gives the value
      back, for every 64-bit value. */
  method LongRoundTrip(x: Int64) returns (y: Int64)
    ensures y == x
  {
    var bytes := LongToBytes(x);
    ghost var encoded := bytes[..];
    y := BytesToLong(bytes);
    assert encoded[|encoded| - 8..] == encoded;
    Int64RoundTrip(x);
  }

  /** Concat(x, y): a new array holding x followed by y. */
  method Concat<T(0)>(x: array<T>, y: array<T>) returns (z: array<T>)
    ensures fresh(z)
    ensures z[..] == x[..] + y[..]
  {
    z := new T[x.Length + y.Length];
    ArrayCopy(x, 0, z, 0, x.Length);
    ArrayCopy(y, 0, z, x.Length, y.Length);
  }

  /** The contents of a list of arrays. */
  function Contents<T>(arrays: seq<array<T>>): (r: seq<seq<T>>)
    reads set a | a in arrays
    ensures |r| == |arrays|
    ensures forall i :: 0 <= i < |arrays| ==> r[i] == arrays[i][..]
  {
    if arrays == [] then [] else [arrays[0][..]] + Contents(arrays[1..])
  }

  /** The sequences of a list, one after the other. */
  function Flatten<T>(parts: seq<seq<T>>): seq<T>
  {
    if parts == [] then [] else parts[0] + Flatten(parts[1..])
  }

  lemma {:induction false} FlattenAppend<T>(a: seq<seq<T>>, b: seq<seq<T>>)
    ensures Flatten(a + b) == Flatten(a) + Flatten(b)
  {
    if a != [] {
      calc {
        Flatten(a + b);
        (a + b)[0] + Flatten((a + b)[1..]);
        { assert (a + b)[1..] == a[1..] + b; }
        a[0] + Flatten(a[1..] + b);
        { FlattenAppend(a[1..], b); }
        a[0] + Flatten(a[1..]) + Flatten(b);
      }
    } else {
      assert a + b == b;
    }
  }

  /** The parts up to i+1, flattened, extend the parts up to i by part i,
      and stay within the whole. */
  lemma FlattenStep<T>(parts: seq<seq<T>>, i: nat)
    requires i < |parts|
    ensures Flatten(parts[..i + 1]) == Flatten(parts[..i]) + parts[i]
    ensures |Flatten(parts[..i + 1])| <= |Flatten(parts)|
  {
    assert parts[..i + 1] == parts[..i] + [parts[i]];
    FlattenAppend(parts[..i], [parts[i]]);
    assert Flatten([parts[i]]) == parts[i] + Flatten([]);
    assert parts == parts[..i + 1] + parts[i + 1..];
    FlattenAppend(parts[..i + 1], parts[i + 1..]);
  }

  lemma FlattenThree<T>(a: seq<T>, b: seq<T>, c: seq<T>)
    ensures Flatten([a, b, c]) == a + b + c
  {
    assert [a, b, c][1..] == [b, c];
    assert [b, c][1..] == [c];
    assert Flatten([c]) == c + Flatten([]);
  }

  /** Concat(params T[][] arr): a new array holding the arrays in order; the
      first loop sums the lengths, the second copies each array at the
      running offset. */
  method ConcatAll<T(0)>(arrays: seq<array<T>>) returns (z: array<T>)
    ensures fresh(z)
    ensures z[..] == Flatten(Contents(arrays))
  {
    ghost var parts := Contents(arrays);
    var totalLength := 0;
    for i := 0 to |arrays|
      invariant totalLength == |Flatten(parts[..i])|
    {
      FlattenStep(parts, i);
      totalLength := totalLength + arrays[i].Length;
    }
    assert parts[..|arrays|] == parts;
    z := new T[totalLength];
    var offset := 0;
    for i := 0 to |arrays|
      invariant offset == |Flatten(parts[..i])| <= z.Length
      invariant z[..offset] == Flatten(parts[..i])
    {
      FlattenStep(parts, i);
      ghost var before := z[..];
      ArrayCopy(arrays[i], 0, z, offset, arrays[i].Length);
      assert z[..offset + arrays[i].Length] == before[..offset] + parts[i];
      offset := offset + arrays[i].Length;
    }
    assert parts[..|arrays|] == parts;
  }

  /** Slice(source, index, length): a new array holding
      source[index..index+length]; Array.Copy throws outside those bounds. */
  method Slice<T(0)>(source: array<T>, index: nat, length: nat) returns (slice: array<T>)
    requires index + length <= source.Length
    ensures fresh(slice)
    ensures slice[..] == source[index..index + length]
  {
    slice := new T[length];
    ArrayCopy(source, index, slice, 0, length);
  }

  // ------------------------------------------------------------------------
  // Hex rendering of a digest
  // ------------------------------------------------------------------------

  function UpperHexDigit(d: nat): char
    requires d < 16
  {
    if d < 10 then ('0' as int + d) as char else ('A' as int + d - 10) as char
  }

  function LowerHexDigit(d: nat): char
    requires d < 16
  {
    if d < 10 then ('0' as int + d) as char else ('a' as int + d - 10) as char
  }

  /** BitConverter.ToString(bytes): upper-case hex pairs separated by '-'. */
  function BitConverterToString(bytes: seq<Byte>): (r: string)
    ensures |r| == if bytes == [] then 0 else 3 * |bytes| - 1
  {
    if bytes == [] then ""
    else
      var pair := [UpperHexDigit(bytes[0] / 16), UpperHexDigit(bytes[0] % 16)];
      if |bytes| == 1 then pair else pair + "-" + BitConverterToString(bytes[1..])
  }

  /** Byte i of the argument is the pair of upper-case hex digits at 3 i,
      followed by a '-' unless it is the last byte. */
  lemma {:induction false} BitConverterToStringAt(bytes: seq<Byte>, i: nat)
    requires i < |bytes|
    ensures BitConverterToString(bytes)[3 * i] == UpperHexDigit(bytes[i] / 16)
    ensures BitConverterToString(bytes)[3 * i + 1] == UpperHexDigit(bytes[i] % 16)
    ensures i < |bytes| - 1 ==> BitConverterToString(bytes)[3 * i + 2] == '-'
  {
    if i > 0 {
      BitConverterToStringAt(bytes[1..], i - 1);
    }
  }

  /** string.Replace(old, "") for a one-character old. */
  function RemoveAll(s: string, c: char): string
  {
    if s == [] then [] else (if s[0] == c then [] else [s[0]]) + RemoveAll(s[1..], c)
  }

  /** char.ToLower on ASCII: 'A'..'Z' to 'a'..'z', anything else kept. */
  function LowerChar(c: char): char
  {
    if 'A' <= c <= 'Z' then (c as int + 32) as char else c
  }

  /** string.ToLower on ASCII text. */
  function ToLower(s: string): string
  {
    if s == [] then [] else [LowerChar(s[0])] + ToLower(s[1..])
  }

  /** Two lowercase hex digits per byte, high nibble first: the reference
      rendering of a digest. */
  function HexPairs(bytes: seq<Byte>): (r: string)
    ensures |r| == 2 * |bytes|
    ensures forall c :: c in r ==> c in "0123456789abcdef"
  {
    if bytes == [] then []
    else [LowerHexDigit(bytes[0] / 16), LowerHexDigit(bytes[0] % 16)] + HexPairs(bytes[1..])
  }

  /** The value of a lowercase hex digit. */
  function HexValue(c: char): nat
  {
    if '0' <= c <= '9' then c as int - '0' as int
    else if 'a' <= c <= 'f' then c as int - 'a' as int + 10
    else 0
  }

  /** Reads back a string of hex pairs. */
  function ParseHexPairs(s: string): seq<Byte>
    decreases |s|
  {
    if |s| < 2 then []
    else
      var hi, lo := HexValue(s[0]), HexValue(s[1]);
      [if hi < 16 && lo < 16 then hi * 16 + lo else 0] + ParseHexPairs(s[2..])
  }

  /** ToHashString(hash): BitConverter.ToString(hash), without its dashes,
      lower-cased; equal to the reference rendering HexPairs. */
  function ToHashString(hash: seq<Byte>): (r: string)
    ensures r == HexPairs(hash)
  {
    HashStringIsHexPairs(hash);
    ToLower(RemoveAll(BitConverterToString(hash), '-'))
  }

  lemma {:induction false} RemoveAllAppend(a: string, b: string, c: char)
    ensures RemoveAll(a + b, c) == RemoveAll(a, c) + RemoveAll(b, c)
  {
    if a != [] {
      var head := if a[0] == c then [] else [a[0]];
      calc {
        RemoveAll(a + b, c);
        head + RemoveAll((a + b)[1..], c);
        { assert (a + b)[1..] == a[1..] + b; }
        head + RemoveAll(a[1..] + b, c);
        { RemoveAllAppend(a[1..], b, c); }
        head + RemoveAll(a[1..], c) + RemoveAll(b, c);
      }
    } else {
      assert a + b == b;
    }
  }

  lemma {:induction false} ToLowerAppend(a: string, b: string)
    ensures ToLower(a + b) == ToLower(a) + ToLower(b)
  {
    if a != [] {
      var head := [LowerChar(a[0])];
      calc {
        ToLower(a + b);
        head + ToLower((a + b)[1..]);
        { assert (a + b)[1..] == a[1..] + b; }
        head + ToLower(a[1..] + b);
        { ToLowerAppend(a[1..], b); }
        head + ToLower(a[1..]) + ToLower(b);
      }
    } else {
      assert a + b == b;
    }
  }

  lemma UpperPairToLower(b: Byte)
    ensures ToLower(RemoveAll([UpperHexDigit(b / 16), UpperHexDigit(b % 16)], '-'))
            == [LowerHexDigit(b / 16), LowerHexDigit(b % 16)]
  {
    var hi, lo := UpperHexDigit(b / 16), UpperHexDigit(b % 16);
    var pair := [hi, lo];
    assert pair[1..] == [lo] && [lo][1..] == [];
    assert RemoveAll([lo], '-') == [lo];
    assert RemoveAll(pair, '-') == pair;
    assert ToLower([lo]) == [LowerHexDigit(b % 16)];
    assert ToLower(pair) == [LowerHexDigit(b / 16), LowerHexDigit(b % 16)];
  }

  lemma {:induction false} HashStringIsHexPairs(hash: seq<Byte>)
    ensures ToLower(RemoveAll(BitConverterToString(hash), '-')) == HexPairs(hash)
  {
    if hash != [] {
      var pair := [UpperHexDigit(hash[0] / 16), UpperHexDigit(hash[0] % 16)];
      UpperPairToLower(hash[0]);
      if |hash| == 1 {
        assert hash[1..] == [];
      } else {
        var rest := BitConverterToString(hash[1..]);
        HashStringIsHexPairs(hash[1..]);
        RemoveAllAppend(pair + "-", rest, '-');
        RemoveAllAppend(pair, "-", '-');
        assert RemoveAll("-", '-') == [];
        ToLowerAppend(RemoveAll(pair, '-'), RemoveAll(rest, '-'));
      }
    }
  }

  /** The hex string of a digest reads back to the digest. */
  lemma {:induction false} HashStringRoundTrip(hash: seq<Byte>)
    ensures ParseHexPairs(ToHashString(hash)) == hash
  {
    if hash != [] {
      HashStringRoundTrip(hash[1..]);
      var s := HexPairs(hash);
      assert s[2..] == HexPairs(hash[1..]);
      assert HexValue(s[0]) == hash[0] / 16 && HexValue(s[1]) == hash[0] % 16;
    }
  }
}
