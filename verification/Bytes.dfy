/** Bytes, big-endian numbers and byte strings shared by the other modules. */
module Bytes {
  import opened Arith

  type byte = bv8

  function ToByte(n: nat): byte
    requires n < 256
  {
    n as byte
  }

  function Value(b: byte): nat { b as nat }

  /** A byte and its number determine each other. */
  lemma ByteValue(n: nat)
    requires n < 256
    ensures Value(ToByte(n)) == n
  {
    hide ToByte, Value;
    var b := SomeByte(n);
    ValueByte(b);
  }

  lemma ValueByte(b: byte)
    ensures Value(b) < 256 && ToByte(Value(b)) == b
  {
  }

  lemma {:induction false} SomeByte(n: nat) returns (b: byte)
    requires n < 256
    ensures Value(b) == n
  {
    if n == 0 {
      b := 0;
    } else {
      b := SomeByte(n - 1);
      NextValue(b);
      b := b + 1;
    }
  }

  lemma NextValue(b: byte)
    requires Value(b) < 255
    ensures Value(b + 1) == Value(b) + 1
  {
  }

  // The n-byte big-endian representation of v (high-order bytes beyond n are dropped).
  function BigEndian(v: nat, n: nat): (s: seq<byte>)
    ensures |s| == n
  {
    if n == 0 then [] else BigEndian(v / 256, n - 1) + [ToByte(v % 256)]
  }

  // The number that a string of bytes writes, high-order byte first.
  function Worth(s: seq<byte>): nat {
    if s == [] then 0 else 256 * Worth(s[..|s| - 1]) + Value(s[|s| - 1])
  }

  function Zeros(n: nat): (s: seq<byte>)
    ensures |s| == n
    ensures forall i :: 0 <= i < n ==> s[i] == 0
  {
    seq(n, _ => 0)
  }

  // The leftmost bytes, as FIPS 180-2 and HMAC truncate.
  function FirstBytes(s: seq<byte>, n: nat): seq<byte> {
    if n <= |s| then s[..n] else s
  }

  function Flatten<T>(ss: seq<seq<T>>): seq<T> {
    if ss == [] then [] else Flatten(ss[..|ss| - 1]) + ss[|ss| - 1]
  }

  lemma FlattenSnoc<T>(ss: seq<seq<T>>, s: seq<T>)
    ensures Flatten(ss + [s]) == Flatten(ss) + s
  {
    assert (ss + [s])[..|ss|] == ss;
  }

  function Pow256(n: nat): (p: nat)
    ensures p >= 1
  {
    if n == 0 then 1 else 256 * Pow256(n - 1)
  }

  /** The representation is worth its number, modulo what n bytes can hold. */
  lemma {:induction false} WorthBigEndian(v: nat, n: nat)
    ensures Worth(BigEndian(v, n)) == v % Pow256(n)
  {
    BigEndianNone(v);
    hide ToByte, Value, Worth, BigEndian, Pow256;
    if n == 0 {
      DivUnique(v, v, 1, 0);
    } else {
      WorthBigEndian(v / 256, n - 1);
      ByteValue(v % 256);
      BigEndianLonger(v / 256, v % 256, n - 1);
      WorthLonger(BigEndian(v / 256, n - 1), ToByte(v % 256));
      LowByteApart(v, Pow256(n - 1));
    }
  }

  lemma WorthLonger(s: seq<byte>, b: byte)
    ensures Worth(s + [b]) == 256 * Worth(s) + Value(b)
  {
    hide Value;
    assert (s + [b])[..|s|] == s;
  }

  lemma LowByteApart(v: nat, p: nat)
    requires p > 0
    ensures v % (256 * p) == 256 * (v / 256 % p) + v % 256
  {
    var u, d := v / 256, v % 256;
    var q, r := u / p, u % p;
    QuotBounds(u, p);
    assert u == q * p + r;
    assert v == q * (256 * p) + (256 * r + d);
    DivUnique(v, q, 256 * p, 256 * r + d);
  }

  /** And it is the only string of its length that is worth the number. */
  lemma {:induction false} BigEndianOfWorth(s: seq<byte>)
    ensures Worth(s) < Pow256(|s|) && BigEndian(Worth(s), |s|) == s
  {
    BigEndianNone(0);
    hide ToByte, Value, BigEndian, Pow256;
    if s != [] {
      var n := |s| - 1;
      BigEndianOfWorth(s[..n]);
      ValueByte(s[n]);
      BigEndianLonger(Worth(s[..n]), Value(s[n]), n);
      assert s == s[..n] + [s[n]];
    }
  }

  lemma BigEndianNone(v: nat)
    ensures BigEndian(v, 0) == [] && Worth([]) == 0 && Pow256(0) == 1
  {
  }

  lemma BigEndianLonger(w: nat, d: nat, n: nat)
    requires d < 256
    ensures BigEndian(256 * w + d, n + 1) == BigEndian(w, n) + [ToByte(d)]
    ensures Pow256(n + 1) == 256 * Pow256(n) && (w < Pow256(n) ==> 256 * w + d < Pow256(n + 1))
  {
    hide ToByte;
    LastByte(w, d);
  }

  lemma LastByte(w: nat, d: nat)
    requires d < 256
    ensures (256 * w + d) / 256 == w && (256 * w + d) % 256 == d
  {
  }

  /** Among the numbers that fit in n bytes, only zero is written with n zero bytes. */
  lemma {:induction false} BigEndianZero(v: nat, n: nat)
    requires v < Pow256(n)
    ensures BigEndian(v, n) == Zeros(n) <==> v == 0
  {
    if n > 0 {
      BigEndianZero(v / 256, n - 1);
      var s := BigEndian(v, n);
      assert s[..n - 1] == BigEndian(v / 256, n - 1) && s[n - 1] == ToByte(v % 256);
      assert Zeros(n)[..n - 1] == Zeros(n - 1);
      ZeroByte(v % 256);
      hide ToByte, BigEndian;
      if v == 0 {
        assert s == s[..n - 1] + [s[n - 1]];
      }
    }
  }

  lemma ZeroByte(n: nat)
    requires n < 256
    ensures ToByte(n) == 0 <==> n == 0
  {
  }

  /** The low 32 bits of a number are the last four bytes of its representation. */
  lemma BigEndianSplit(v: nat, n: nat)
    requires n >= 4
    ensures BigEndian(v, n) == BigEndian(v / 0x1_0000_0000, n - 4) + BigEndian(v % 0x1_0000_0000, 4)
  {
    hide BigEndian;
    LowFour(v, n);
    LowFour(v % 0x1_0000_0000, 4);
    HalfWords(v);
    assert BigEndian(0, 0) + BigEndian(v / 0x1_0000 % 0x1_0000, 2) == BigEndian(v / 0x1_0000 % 0x1_0000, 2);
  }

  lemma LowFour(v: nat, n: nat)
    requires n >= 4
    ensures BigEndian(v, n)
         == BigEndian(v / 0x1_0000 / 0x1_0000, n - 4) + BigEndian(v / 0x1_0000 % 0x1_0000, 2)
              + BigEndian(v % 0x1_0000, 2)
  {
    hide BigEndian;
    LowTwo(v, n);
    LowTwo(v / 0x1_0000, n - 2);
  }

  // The halves of a 32-bit word.
  lemma HalfWords(v: nat)
    ensures v / 0x1_0000 / 0x1_0000 == v / 0x1_0000_0000
    ensures var w := v % 0x1_0000_0000;
            && w / 0x1_0000 / 0x1_0000 == 0
            && w % 0x1_0000 == v % 0x1_0000 && w / 0x1_0000 % 0x1_0000 == v / 0x1_0000 % 0x1_0000
  {
  }

  lemma LowTwo(v: nat, n: nat)
    requires n >= 2
    ensures BigEndian(v, n) == BigEndian(v / 0x1_0000, n - 2) + BigEndian(v % 0x1_0000, 2)
  {
    hide ToByte;
    assert v / 256 / 256 == v / 0x1_0000;
    assert v % 0x1_0000 / 256 == v / 256 % 256 && v % 0x1_0000 % 256 == v % 256;
    assert BigEndian(v, n) == BigEndian(v / 256 / 256, n - 2) + [ToByte(v / 256 % 256), ToByte(v % 256)];
    assert BigEndian(v % 0x1_0000, 2) == [ToByte(v % 0x1_0000 / 256 % 256), ToByte(v % 0x1_0000 % 256)];
  }
}
