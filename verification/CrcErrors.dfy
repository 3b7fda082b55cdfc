/** Which transmission errors the CRC of crc.c is sure to detect. */
module CrcErrors {
  import opened Bytes
  import opened Gf2
  import opened Crc
  import opened CrcDetection

  // Where two messages of equal length differ, bit by bit.
  function Difference(m: seq<byte>, n: seq<byte>): (d: seq<bool>)
    requires |m| == |n|
    ensures |d| == 8 * |m|
  {
    Add(MessageBits(m), MessageBits(n))
  }

  lemma TopBitXor(a: bool, b: bool)
    ensures Xor(TopBit(a), TopBit(b)) == TopBit(a != b)
  {
  }

  /** Dividing is linear: the difference of two remainders is the remainder of the difference. */
  lemma {:induction false} BitsFromLinear(r: bv16, s: bv16, x: seq<bool>, y: seq<bool>)
    requires |x| == |y|
    ensures Xor(BitsFrom(r, x), BitsFrom(s, y)) == BitsFrom(Xor(r, s), Add(x, y))
    decreases |x|
  {
    hide Step, Xor, TopBit;
    if x != [] {
      var n := |x| - 1;
      BitsFromLinear(r, s, x[..n], y[..n]);
      assert Add(x, y)[..n] == Add(x[..n], y[..n]);
      var (a, b) := (BitsFrom(r, x[..n]), BitsFrom(s, y[..n]));
      StepLinear(Xor(a, TopBit(x[n])), Xor(b, TopBit(y[n])));
      XorExchange(a, TopBit(x[n]), b, TopBit(y[n]));
      TopBitXor(x[n], y[n]);
    }
  }

  lemma SameCrcIff(m: seq<byte>, n: seq<byte>)
    requires |m| == |n|
    ensures CrcOf(m) == CrcOf(n) <==> BitsFrom(0, Difference(m, n)) == 0
  {
    hide Xor, BitsFrom, CrcFrom, MessageBits;
    var i := INITIAL_REMAINDER;
    BytesAreBits(i, m);
    BytesAreBits(i, n);
    BitsFromLinear(i, i, MessageBits(m), MessageBits(n));
    XorSelf(i);
    XorZero(CrcFrom(i, m));
    XorZero(CrcFrom(i, n));
    XorEqual(CrcOf(m), CrcOf(n));
  }

  // ----- Bursts.

  lemma {:induction false} ZeroBits(r: bv16, n: nat)
    ensures BitsFrom(r, Zero(n)) == Steps(r, n)
  {
    hide Step, Xor;
    if n > 0 {
      ZeroBits(r, n - 1);
      assert Zero(n)[..n - 1] == Zero(n - 1);
      XorZero(BitsFrom(r, Zero(n - 1)));
    }
  }

  lemma PeelZero(b: bool, q: bv16)
    ensures Xor(TopBit(b), Shr(q)) == 0 ==> !b && Shr(q) == 0
  {
  }

  lemma {:induction false} LoadedZero(w: seq<bool>)
    requires |w| <= 16 && Loaded(w) == 0
    ensures w == Zero(|w|)
  {
    hide Xor, TopBit, Shr, LowMask, Apart, Step;
    if w != [] {
      var q := Loaded(w[1..]);
      PeelZero(w[0], q);
      LoadedStaysHigh(w[1..]);
      LowMaskIsOdd(|w| - 1);
      LowBitClear(q, LowMask(|w| - 1));
      StepNonZero(0);
      LoadedZero(w[1..]);
      assert w == [w[0]] + w[1..];
    }
  }

  /** A non-zero burst of at most 16 bits leaves a non-zero remainder wherever it stands. */
  lemma BurstNonZero(bits: seq<bool>, p: nat)
    requires bits != Zero(|bits|)
    requires forall i :: 0 <= i < |bits| && bits[i] ==> p <= i < p + 16
    ensures BitsFrom(0, bits) != 0
  {
    hide Step, Steps, BitsFrom, Loaded, Xor;
    var w, k := BurstShape(bits, p);
    BitsFromAppend(0, Zero(p) + w, Zero(k));
    WindowNonZero(p, w);
    ZeroBits(BitsFrom(0, Zero(p) + w), k);
    StepsNonZero(BitsFrom(0, Zero(p) + w), k);
  }

  // A burst is a window of at most 16 bits, not all of them zero.
  lemma BurstShape(bits: seq<bool>, p: nat) returns (w: seq<bool>, k: nat)
    requires bits != Zero(|bits|)
    requires forall i :: 0 <= i < |bits| && bits[i] ==> p <= i < p + 16
    ensures bits == Zero(p) + w + Zero(k) && |w| <= 16
    ensures exists i :: 0 <= i < |w| && w[i]
  {
    var i :| 0 <= i < |bits| && bits[i];
    var e := if p + 16 <= |bits| then p + 16 else |bits|;
    w, k := bits[p..e], |bits| - e;
    assert w[i - p];
  }

  lemma WindowNonZero(p: nat, w: seq<bool>)
    requires |w| <= 16 && exists i :: 0 <= i < |w| && w[i]
    ensures BitsFrom(0, Zero(p) + w) != 0
  {
    hide Step, Steps, BitsFrom, Loaded, Xor;
    BitsFromAppend(0, Zero(p), w);
    ZeroBits(0, p);
    StepsNonZero(0, p);
    LoadThenStep(0, w);
    XorCommutes(0, Loaded(w));
    XorZero(Loaded(w));
    StepsNonZero(Loaded(w), |w|);
    if Loaded(w) == 0 {
      LoadedZero(w);
    }
  }

  lemma {:induction false} MessageBitsInjective(m: seq<byte>, n: seq<byte>)
    requires |m| == |n| && MessageBits(m) == MessageBits(n)
    ensures m == n
  {
    hide Bits8;
    if m != [] {
      var k := |m| - 1;
      LastByteBits(m);
      LastByteBits(n);
      hide MessageBits;
      MessageBitsInjective(m[..k], n[..k]);
      Bits8Injective(m[k], n[k]);
      assert m == m[..k] + [m[k]] && n == n[..k] + [n[k]];
    }
  }

  lemma LastByteBits(m: seq<byte>)
    requires m != []
    ensures var k := |m| - 1;
            MessageBits(m)[..8 * k] == MessageBits(m[..k]) && MessageBits(m)[8 * k..] == Bits8(m[k])
  {
    hide Bits8;
  }

  lemma Bits8Injective(a: byte, b: byte)
    requires Bits8(a) == Bits8(b)
    ensures a == b
  {
    LoadedByte(a);
    LoadedByte(b);
    LoadInjective(a, b);
  }

  lemma LoadInjective(a: byte, b: byte)
    ensures Load(a) == Load(b) ==> a == b
  {
  }

  /** Two different messages of equal length that differ only inside 16 consecutive bits have
    different CRCs. */
  lemma BurstDetected(m: seq<byte>, n: seq<byte>, p: nat)
    requires |m| == |n| && m != n
    requires forall i :: 0 <= i < 8 * |m| && MessageBits(m)[i] != MessageBits(n)[i] ==> p <= i < p + 16
    ensures CrcOf(m) != CrcOf(n)
  {
    hide CrcOf, BitsFrom, MessageBits;
    var d := Difference(m, n);
    if d == Zero(|d|) {
      forall i | 0 <= i < 8 * |m| ensures MessageBits(m)[i] == MessageBits(n)[i] {
        assert !d[i];
      }
      MessageBitsInjective(m, n);
    }
    BurstNonZero(d, p);
    SameCrcIff(m, n);
  }

  // ----- The bound of 16 is the best possible.

  lemma LoadedTop(x: bv16)
    ensures x == Xor(TopBit(Top(x)), Shr(Shl(x)))
  {
    TopPart(x);
    TopAndRest(x);
    calc {
      Xor(TopBit(Top(x)), Shr(Shl(x)));
      (x & 0x8000) ^ Shr(Shl(x));
      (x & 0x8000) ^ (Shl(x) >> 1);
      (x & 0x8000) ^ ((x << 1) >> 1);
      x;
    }
  }

  lemma TopAndRest(x: bv16)
    ensures (x & 0x8000) ^ ((x << 1) >> 1) == x
  {
  }

  lemma TopPart(x: bv16)
    ensures TopBit(Top(x)) == x & 0x8000
  {
  }

  lemma {:induction false} LoadedBits(r: bv16, k: nat)
    requires k <= 16
    ensures Loaded(Bits16(r)[k..]) == Shls(r, k)
    decreases 16 - k
  {
    hide Xor, TopBit, Shr, Shl, Top;
    if k == 16 {
      ShlsEmpty(r);
    } else {
      LoadedBits(r, k + 1);
      LoadedTop(Shls(r, k));
      assert Bits16(r)[k..][1..] == Bits16(r)[k + 1..];
    }
  }

  // The polynomial itself, anywhere in a bit string, divides to zero.
  lemma DivisorDivides(before: nat, after: nat)
    ensures BitsFrom(0, Zero(before) + DIVISOR + Zero(after)) == 0
  {
    hide Step, Steps, BitsFrom, Loaded, Xor;
    var low := DIVISOR[1..];
    assert DIVISOR == [true] + low;
    BitsFromAppend(0, Zero(before) + DIVISOR, Zero(after));
    BitsFromAppend(0, Zero(before), DIVISOR);
    ZeroBits(0, before);
    StepsNonZero(0, before);
    BitsFromAppend(0, [true], low);
    OneBit();
    PolynomialBits();
    LoadedBits(POLYNOMIAL, 0);
    assert Bits16(POLYNOMIAL)[0..] == low;
    NoShift(POLYNOMIAL);
    LoadThenStep(POLYNOMIAL, low);
    XorSelf(POLYNOMIAL);
    StepsNonZero(0, 16);
    ZeroBits(0, after);
    StepsNonZero(0, after);
  }

  // ----- Messages from bits.

  function Flag(b: bool, m: byte): byte { if b then m else 0 }

  function ByteOf(s: seq<bool>): byte
    requires |s| == 8
  {
    Flag(s[0], 0x80) | Flag(s[1], 0x40) | Flag(s[2], 0x20) | Flag(s[3], 0x10)
    | Flag(s[4], 0x08) | Flag(s[5], 0x04) | Flag(s[6], 0x02) | Flag(s[7], 0x01)
  }

  lemma ByteShifts(x: byte)
    ensures ShiftByte(x, 1) == x << 1 && ShiftByte(x, 2) == x << 2 && ShiftByte(x, 3) == x << 3
    ensures ShiftByte(x, 4) == x << 4 && ShiftByte(x, 5) == x << 5 && ShiftByte(x, 6) == x << 6
    ensures ShiftByte(x, 7) == x << 7
  {
    assert ShiftByte(x, 0) == x;
  }

  // Every bit string of length 8 is the bits of a byte.
  lemma BitsOfByte(s: seq<bool>)
    requires |s| == 8
    ensures Bits8(ByteOf(s)) == s
  {
    var x := ByteOf(s);
    ByteShifts(x);
    hide ShiftByte;
    assert ShiftByte(x, 0) == x by {
      NoByteShift(x);
    }
    assert HighBit(x) == s[0] && HighBit(x << 1) == s[1] && HighBit(x << 2) == s[2] && HighBit(x << 3) == s[3];
    assert HighBit(x << 4) == s[4] && HighBit(x << 5) == s[5] && HighBit(x << 6) == s[6] && HighBit(x << 7) == s[7];
  }

  lemma NoByteShift(x: byte)
    ensures ShiftByte(x, 0) == x
  {
  }

  function MessageOf(bits: seq<bool>): (m: seq<byte>)
    requires |bits| % 8 == 0
    ensures 8 * |m| == |bits|
  {
    if bits == [] then [] else MessageOf(bits[..|bits| - 8]) + [ByteOf(bits[|bits| - 8..])]
  }

  // Every bit string of whole bytes is the bits of a message.
  lemma {:induction false} BitsOfMessage(bits: seq<bool>)
    requires |bits| % 8 == 0
    ensures MessageBits(MessageOf(bits)) == bits
  {
    hide Bits8, ByteOf;
    if bits != [] {
      var n := |bits| - 8;
      BitsOfMessage(bits[..n]);
      BitsOfByte(bits[n..]);
      var m := MessageOf(bits);
      assert m[..|m| - 1] == MessageOf(bits[..n]);
      assert bits == bits[..n] + bits[n..];
    }
  }

  /** A burst of 17 bits can go unnoticed: for every message, and every place in it, there is another message of the
      same length and with the same CRC that differs from it exactly by the polynomial at that place. */
  lemma BurstOf17(m: seq<byte>, before: nat) returns (n: seq<byte>)
    requires before + 17 <= 8 * |m|
    ensures |n| == |m| && n != m && CrcOf(n) == CrcOf(m)
    ensures Difference(m, n) == Zero(before) + DIVISOR + Zero(8 * |m| - before - 17)
  {
    hide CrcOf, BitsFrom, MessageBits, MessageOf, Add;
    var after := 8 * |m| - before - 17;
    var burst := Zero(before) + DIVISOR + Zero(after);
    var bits := MessageBits(m);
    n := MessageOf(Add(bits, burst));
    BitsOfMessage(Add(bits, burst));
    AddTwice(bits, burst);
    AddSelf(bits, before);
    assert burst[before];
    DivisorDivides(before, after);
    SameCrcIff(m, n);
  }

  lemma AddTwice(x: Poly, y: Poly)
    requires |x| == |y|
    ensures Add(x, Add(x, y)) == y
  {
  }

  lemma AddSelf(x: Poly, i: nat)
    requires i < |x|
    ensures !Add(x, x)[i]
  {
  }

  lemma OneBit()
    ensures BitsFrom(0, [true]) == POLYNOMIAL
  {
    assert BitsFrom(0, [true]) == Step(Xor(BitsFrom(0, []), TopBit(true)));
  }

  // ----- Errors in an odd number of bits.

  function Weight(bits: seq<bool>): nat {
    if bits == [] then 0 else Weight(bits[..|bits| - 1]) + if bits[|bits| - 1] then 1 else 0
  }

  predicate Odd(bits: seq<bool>) {
    Weight(bits) % 2 == 1
  }

  lemma OddLast(bits: seq<bool>)
    requires bits != []
    ensures Odd(bits) == (Odd(bits[..|bits| - 1]) != bits[|bits| - 1])
  {
  }

  lemma {:induction false} OddFirst(bits: seq<bool>)
    requires bits != []
    ensures Odd(bits) == (bits[0] != Odd(bits[1..]))
  {
    hide Odd;
    OddLast(bits);
    OddEmpty();
    if |bits| == 1 {
      assert bits[..0] == [] && bits[1..] == [];
    } else {
      OddFirst(bits[..|bits| - 1]);
      OddLast(bits[1..]);
      assert bits[..|bits| - 1][1..] == bits[1..][..|bits| - 2];
    }
  }

  lemma OddEmpty()
    ensures !Odd([])
  {
  }

  lemma {:induction false} OddAdd(x: seq<bool>, y: seq<bool>)
    requires |x| == |y|
    ensures Odd(Add(x, y)) == (Odd(x) != Odd(y))
    decreases |x|
  {
    hide Odd;
    if x == [] {
      OddEmpty();
      assert Add(x, y) == [] && y == [];
    } else {
      var n := |x| - 1;
      OddAdd(x[..n], y[..n]);
      assert Add(x, y)[..n] == Add(x[..n], y[..n]);
      OddLast(x);
      OddLast(y);
      OddLast(Add(x, y));
    }
  }

  lemma {:induction false} OddZero(n: nat)
    ensures !Odd(Zero(n))
  {
    hide Odd;
    if n == 0 {
      OddEmpty();
      assert Zero(0) == [];
    } else {
      OddZero(n - 1);
      OddLast(Zero(n));
      assert Zero(n)[..n - 1] == Zero(n - 1);
    }
  }

  lemma OddPolynomial()
    ensures Odd(Bits16(POLYNOMIAL))
  {
    hide Odd, Bits16;
    PolynomialBits();
    var d: seq<bool> := DIVISOR[1..];
    assert d == Zero(3) + [true] + Zero(6) + [true] + Zero(4) + [true];
    OddLast(d);
    assert d[..15] == Zero(3) + [true] + Zero(6) + [true] + Zero(4);
    OddPadded(Zero(3) + [true] + Zero(6) + [true], 4);
    OddLast(Zero(3) + [true] + Zero(6) + [true]);
    assert (Zero(3) + [true] + Zero(6) + [true])[..10] == Zero(3) + [true] + Zero(6);
    OddPadded(Zero(3) + [true], 6);
    OddLast(Zero(3) + [true]);
    assert (Zero(3) + [true])[..3] == Zero(3);
    OddZero(3);
  }

  lemma {:induction false} OddPadded(x: seq<bool>, n: nat)
    ensures Odd(x + Zero(n)) == Odd(x)
  {
    hide Odd;
    if n == 0 {
      assert x + Zero(0) == x;
    } else {
      OddPadded(x, n - 1);
      OddLast(x + Zero(n));
      assert (x + Zero(n))[..|x + Zero(n)| - 1] == x + Zero(n - 1);
    }
  }

  lemma OddXor(x: bv16, y: bv16)
    ensures Odd(Bits16(Xor(x, y))) == (Odd(Bits16(x)) != Odd(Bits16(y)))
  {
    hide Odd, Bits16, Xor;
    BitsXor(x, y);
    assert Bits16(Xor(x, y)) == Add(Bits16(x), Bits16(y));
    OddAdd(Bits16(x), Bits16(y));
  }

  /** The polynomial has an even number of terms, so a step keeps the parity of the remainder. */
  lemma StepKeepsParity(x: bv16)
    ensures Odd(Bits16(Step(x))) == Odd(Bits16(x))
  {
    hide Odd, Bits16, Xor, Shl, Top;
    BitsShl(x);
    FirstBit(x);
    var b := Bits16(x);
    assert Bits16(Shl(x)) == b[1..] + Zero(1);
    OddPadded(b[1..], 1);
    OddFirst(b);
    OddPolynomial();
    OddXor(Shl(x), POLYNOMIAL);
  }

  lemma TopBitParity(b: bool)
    ensures Odd(Bits16(TopBit(b))) == b
  {
    hide Odd, Bits16, TopBit;
    TopBitBits(b);
    OddFirst(Bits16(TopBit(b)));
    assert Bits16(TopBit(b))[1..] == Zero(15);
    OddZero(15);
  }

  lemma {:induction false} DivisionKeepsParity(r: bv16, bits: seq<bool>)
    ensures Odd(Bits16(BitsFrom(r, bits))) == (Odd(Bits16(r)) != Odd(bits))
  {
    hide Odd, Bits16, Xor, Step, TopBit;
    if bits == [] {
      OddEmpty();
    } else {
      var n := |bits| - 1;
      var x := BitsFrom(r, bits[..n]);
      DivisionKeepsParity(r, bits[..n]);
      OddXor(x, TopBit(bits[n]));
      TopBitParity(bits[n]);
      StepKeepsParity(Xor(x, TopBit(bits[n])));
      OddLast(bits);
    }
  }

  /** Two messages of equal length that differ in an odd number of bits have different CRCs. */
  lemma OddErrorDetected(m: seq<byte>, n: seq<byte>)
    requires |m| == |n| && Weight(Difference(m, n)) % 2 == 1
    ensures CrcOf(m) != CrcOf(n)
  {
    hide CrcOf, BitsFrom, MessageBits, Bits16;
    SameCrcIff(m, n);
    DivisionKeepsParity(0, Difference(m, n));
  }
}
