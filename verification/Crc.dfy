/** crc.c as crc.h configures it (CRC-CCITT): the bitwise and the table-driven form. */
module Crc {

  import opened Bytes

  // crc.h, the CRC_CCITT branch
  const POLYNOMIAL: bv16 := 0x1021
  const INITIAL_REMAINDER: bv16 := 0xFFFF
  const FINAL_XOR_VALUE: bv16 := 0x0000

  // The word operations under names of their own, so that proofs can reason about them as an
  // algebra and not bit by bit.
  function Xor(x: bv16, y: bv16): bv16 { x ^ y }

  function Shl(x: bv16): bv16 { x << 1 }

  predicate Top(x: bv16) { x & 0x8000 != 0 }

  // A byte at the top of the remainder.
  function Load(b: byte): bv16 { (b as bv16) << 8 }

  // One pass of the inner loop: the remainder is shifted, and the polynomial taken off if it fits.
  function Step(r: bv16): bv16 {
    if Top(r) then Xor(Shl(r), POLYNOMIAL) else Shl(r)
  }

  function Steps(r: bv16, n: nat): bv16 {
    if n == 0 then r else Step(Steps(r, n - 1))
  }

  function ByteStep(r: bv16, b: byte): bv16 {
    Steps(Xor(r, Load(b)), 8)
  }

  // The remainder after a message that starts with remainder r.
  function CrcFrom(r: bv16, message: seq<byte>): bv16 {
    if message == [] then r else ByteStep(CrcFrom(r, message[..|message| - 1]), message[|message| - 1])
  }

  function CrcOf(message: seq<byte>): bv16 {
    Xor(CrcFrom(INITIAL_REMAINDER, message), FINAL_XOR_VALUE)
  }

  // ----- The algebra of the step.

  lemma XorAssociates(x: bv16, y: bv16, z: bv16)
    ensures Xor(Xor(x, y), z) == Xor(x, Xor(y, z))
  {
    calc {
      Xor(Xor(x, y), z);
      Xor(x, y) ^ z;
      (x ^ y) ^ z;
      x ^ (y ^ z);
      x ^ Xor(y, z);
      Xor(x, Xor(y, z));
    }
  }

  lemma XorCommutes(x: bv16, y: bv16)
    ensures Xor(x, y) == Xor(y, x)
  {
  }

  lemma XorZero(x: bv16)
    ensures Xor(x, 0) == x
  {
  }

  lemma XorSelf(x: bv16)
    ensures Xor(x, x) == 0
  {
  }

  lemma XorEqual(x: bv16, y: bv16)
    ensures Xor(x, y) == 0 <==> x == y
  {
    hide Xor;
    XorSelf(y);
    XorAssociates(x, y, y);
    XorZero(x);
    XorZero(y);
    XorCommutes(0, y);
  }

  /** (a + b) + (c + d) == (a + c) + (b + d) */
  lemma XorExchange(a: bv16, b: bv16, c: bv16, d: bv16)
    ensures Xor(Xor(a, b), Xor(c, d)) == Xor(Xor(a, c), Xor(b, d))
  {
    hide Xor;
    XorAssociates(a, b, Xor(c, d));
    XorAssociates(b, c, d);
    XorCommutes(b, c);
    XorAssociates(c, b, d);
    XorAssociates(a, c, Xor(b, d));
  }

  lemma ShlXor(x: bv16, y: bv16)
    ensures Shl(Xor(x, y)) == Xor(Shl(x), Shl(y))
  {
    calc {
      Shl(Xor(x, y));
      Xor(x, y) << 1;
      (x ^ y) << 1;
      (x << 1) ^ (y << 1);
      Shl(x) ^ Shl(y);
      Xor(Shl(x), Shl(y));
    }
  }

  lemma TopXor(x: bv16, y: bv16)
    ensures Top(Xor(x, y)) == (Top(x) != Top(y))
  {
  }

  lemma StepLinear(r: bv16, s: bv16)
    ensures Step(Xor(r, s)) == Xor(Step(r), Step(s))
  {
    hide Xor, Shl, Top;
    var p := POLYNOMIAL;
    TopXor(r, s);
    ShlXor(r, s);
    XorExchange(Shl(r), p, Shl(s), 0);
    XorExchange(Shl(r), 0, Shl(s), p);
    XorExchange(Shl(r), p, Shl(s), p);
    XorZero(Shl(r));
    XorZero(Shl(s));
    XorZero(Xor(Shl(r), Shl(s)));
    XorZero(p);
    XorSelf(p);
    XorCommutes(0, p);
  }

  lemma {:induction false} StepsLinear(r: bv16, s: bv16, n: nat)
    ensures Steps(Xor(r, s), n) == Xor(Steps(r, n), Steps(s, n))
  {
    hide Xor, Step;
    if n > 0 {
      StepsLinear(r, s, n - 1);
      StepLinear(Steps(r, n - 1), Steps(s, n - 1));
    }
  }

  lemma StepNonZero(r: bv16)
    ensures Step(r) == 0 <==> r == 0
  {
  }

  /** The step loses nothing: only the zero remainder becomes zero. */
  lemma {:induction false} StepsNonZero(r: bv16, n: nat)
    ensures Steps(r, n) == 0 <==> r == 0
  {
    hide Step;
    if n > 0 {
      StepsNonZero(r, n - 1);
      StepNonZero(Steps(r, n - 1));
    }
  }

  lemma {:induction false} CrcFromAppend(r: bv16, x: seq<byte>, y: seq<byte>)
    ensures CrcFrom(r, x + y) == CrcFrom(CrcFrom(r, x), y)
  {
    hide ByteStep;
    if y == [] {
      assert x + y == x;
    } else {
      var n := |y| - 1;
      assert (x + y)[..|x + y| - 1] == x + y[..n];
      CrcFromAppend(r, x, y[..n]);
    }
  }

  /** The check value that crc.h gives for this CRC: that of the ASCII digits 1 to 9. */
  lemma CheckValue()
    ensures CrcOf([0x31, 0x32, 0x33, 0x34, 0x35, 0x36, 0x37, 0x38, 0x39]) == 0x29B1
  {
    var message: seq<byte> := [0x31, 0x32, 0x33, 0x34, 0x35, 0x36, 0x37, 0x38, 0x39];
    CheckSteps();
    hide ByteStep;
    forall i | 0 <= i < 9
      ensures CrcFrom(0xFFFF, message[..i + 1]) == ByteStep(CrcFrom(0xFFFF, message[..i]), message[i])
    {
      assert message[..i + 1][..i] == message[..i];
    }
    assert message[..9] == message && message[..0] == [];
    assert CrcFrom(0xFFFF, message[..1]) == 0xC782; assert CrcFrom(0xFFFF, message[..2]) == 0x3DBA;
    assert CrcFrom(0xFFFF, message[..3]) == 0x5BCE; assert CrcFrom(0xFFFF, message[..4]) == 0x5349;
    assert CrcFrom(0xFFFF, message[..5]) == 0x4560; assert CrcFrom(0xFFFF, message[..6]) == 0x2EF4;
    assert CrcFrom(0xFFFF, message[..7]) == 0x7718; assert CrcFrom(0xFFFF, message[..8]) == 0xA12B;
  }

  lemma CheckSteps()
    ensures ByteStep(0xFFFF, 0x31) == 0xC782 && ByteStep(0xC782, 0x32) == 0x3DBA && ByteStep(0x3DBA, 0x33) == 0x5BCE
    ensures ByteStep(0x5BCE, 0x34) == 0x5349 && ByteStep(0x5349, 0x35) == 0x4560 && ByteStep(0x4560, 0x36) == 0x2EF4
    ensures ByteStep(0x2EF4, 0x37) == 0x7718 && ByteStep(0x7718, 0x38) == 0xA12B && ByteStep(0xA12B, 0x39) == 0x29B1
  {
  }

  // ----- The bitwise form.

  method CrcSlow(message: seq<byte>) returns (crc: bv16)
    ensures crc == CrcOf(message)
  {
    hide Xor, Step, Load;
    var remainder := INITIAL_REMAINDER;
    for byte_ := 0 to |message|
      invariant remainder == CrcFrom(INITIAL_REMAINDER, message[..byte_])
    {
      ghost var loaded := Xor(remainder, Load(message[byte_]));
      remainder := Xor(remainder, Load(message[byte_]));
      remainder := DivideByte(remainder);
      assert message[..byte_ + 1][..byte_] == message[..byte_];
    }
    assert message[..|message|] == message;
    crc := Xor(remainder, FINAL_XOR_VALUE);
  }

  // The inner loop that crcSlow and crcInit share.
  method DivideByte(r: bv16) returns (remainder: bv16)
    ensures remainder == Steps(r, 8)
  {
    hide Xor, Top, Shl;
    remainder := r;
    for bit_ := 8 downto 0
      invariant remainder == Steps(r, 8 - bit_)
    {
      if Top(remainder) {
        remainder := Xor(Shl(remainder), POLYNOMIAL);
      } else {
        remainder := Shl(remainder);
      }
    }
  }

  // ----- The table-driven form.

  class CrcTable {
    const crcTable: array<bv16>

    ghost predicate Initialized()
      reads crcTable
    {
      crcTable.Length == 256 && forall d: byte :: crcTable[d as nat] == Steps(Load(d), 8)
    }

    constructor ()
      ensures crcTable.Length == 256 && fresh(crcTable)
    {
      crcTable := new bv16[256];
    }

    // crcInit
    method CrcInit()
      requires crcTable.Length == 256
      modifies crcTable
      ensures Initialized()
    {
      hide Steps, Load;
      for dividend := 0 to 256
        invariant forall d: byte :: (d as nat) < dividend ==> crcTable[d as nat] == Steps(Load(d), 8)
      {
        crcTable[dividend] := DivideByte(Load(dividend as byte));
      }
    }

    // crcFast; crcInit must have been called.
    method CrcFast(message: seq<byte>) returns (crc: bv16)
      requires Initialized()
      ensures crc == CrcOf(message)
    {
      hide Steps, Load, Xor;
      var remainder := INITIAL_REMAINDER;
      for byte_ := 0 to |message|
        invariant remainder == CrcFrom(INITIAL_REMAINDER, message[..byte_])
      {
        TableStep(remainder, message[byte_]);
        var data := message[byte_] ^ HighByte(remainder);
        remainder := Xor(crcTable[data as nat], remainder << 8);
        assert message[..byte_ + 1][..byte_] == message[..byte_];
      }
      assert message[..|message|] == message;
      crc := Xor(remainder, FINAL_XOR_VALUE);
    }
  }

  function HighByte(r: bv16): byte { (r >> 8) as byte }

  function LowByte(r: bv16): byte { (r & 0xFF) as byte }

  /** One table look-up does the work of eight steps: the high byte of the remainder meets the
    message byte, the low byte is only shifted. */
  lemma TableStep(r: bv16, b: byte)
    ensures ByteStep(r, b) == Xor(Steps(Load(b ^ HighByte(r)), 8), r << 8)
  {
    var low := r & 0xFF;
    SplitRemainder(r, b);
    LowByteOnlyShifts(low);
    assert low << 8 == r << 8;
    hide Xor, Load, Steps;
    StepsLinear(Load(b ^ HighByte(r)), low, 8);
  }

  lemma SplitRemainder(r: bv16, b: byte)
    ensures Xor(r, Load(b)) == Xor(Load(b ^ HighByte(r)), r & 0xFF)
  {
  }

  lemma LowByteOnlyShifts(low: bv16)
    requires low & 0xFF00 == 0
    ensures Steps(low, 8) == low << 8
  {
    assert Steps(low, 1) == low << 1;
    assert Steps(low, 2) == low << 2;
    assert Steps(low, 3) == low << 3;
    assert Steps(low, 4) == low << 4;
    assert Steps(low, 5) == low << 5;
    assert Steps(low, 6) == low << 6;
    assert Steps(low, 7) == low << 7;
  }
}
