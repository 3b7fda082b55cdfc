/** What the CRC of crc.c is, as polynomial division over GF(2), and which errors it detects. */
module CrcDetection {
  import opened Bytes
  import opened Gf2
  import opened Crc

  // x^16 + x^12 + x^5 + 1
  const DIVISOR: Poly := [true, false, false, false, true, false, false, false, false,
                          false, false, true, false, false, false, false, true]

  // Left shifts by k places.
  function Shls(x: bv16, k: nat): bv16 {
    if k == 0 then x else Shl(Shls(x, k - 1))
  }

  function ShiftByte(b: byte, k: nat): byte {
    if k == 0 then b else ShiftByte(b, k - 1) << 1
  }

  predicate HighBit(b: byte) { b & 0x80 != 0 }

  // The bits of a remainder and of a byte, high bit first: the k-th is the one that k shifts
  // bring to the top.
  function Bits16(r: bv16): (s: seq<bool>)
    ensures |s| == 16
  {
    seq(16, k requires 0 <= k < 16 => Top(Shls(r, k)))
  }

  function Bits8(b: byte): (s: seq<bool>)
    ensures |s| == 8
  {
    seq(8, k requires 0 <= k < 8 => HighBit(ShiftByte(b, k)))
  }

  // The bits of a message in the order they are divided: first byte first, high bit first.
  function MessageBits(message: seq<byte>): (s: seq<bool>)
    ensures |s| == 8 * |message|
  {
    if message == [] then [] else MessageBits(message[..|message| - 1]) + Bits8(message[|message| - 1])
  }

  // One message bit enters at the top of the remainder.
  function TopBit(b: bool): bv16 { if b then 0x8000 else 0 }

  function BitsFrom(r: bv16, bits: seq<bool>): bv16 {
    if bits == [] then r
    else Step(Xor(BitsFrom(r, bits[..|bits| - 1]), TopBit(bits[|bits| - 1])))
  }

  lemma {:induction false} BitsFromAppend(r: bv16, x: seq<bool>, y: seq<bool>)
    ensures BitsFrom(r, x + y) == BitsFrom(BitsFrom(r, x), y)
  {
    hide Step, Xor, TopBit;
    if y == [] {
      assert x + y == x;
    } else {
      var n := |y| - 1;
      assert (x + y)[..|x + y| - 1] == x + y[..n];
      BitsFromAppend(r, x, y[..n]);
    }
  }

  // ----- Loading many bits at once and then stepping is feeding them in one at a time.

  function Shr(x: bv16): bv16 { x >> 1 }

  // Bits at the top of a remainder, first bit highest.
  function Loaded(bits: seq<bool>): bv16 {
    if bits == [] then 0 else Xor(TopBit(bits[0]), Shr(Loaded(bits[1..])))
  }

  // The positions below the n highest ones.
  function LowMask(n: nat): bv16 {
    if n == 0 then 0xFFFF else Shr(LowMask(n - 1))
  }

  predicate Apart(q: bv16, m: bv16) { q & m == 0 }

  lemma {:induction false} LoadedStaysHigh(bits: seq<bool>)
    ensures Apart(Loaded(bits), LowMask(|bits|))
  {
    hide Xor, Shr, TopBit, Apart;
    if bits == [] {
      ApartFromZero(LowMask(0));
    } else {
      LoadedStaysHigh(bits[1..]);
      MaskShifts(bits[0], Loaded(bits[1..]), LowMask(|bits| - 1));
    }
  }

  lemma ApartFromZero(m: bv16)
    ensures Apart(0, m)
  {
  }

  lemma MaskShifts(b: bool, q: bv16, m: bv16)
    requires Apart(q, m)
    ensures Apart(Xor(TopBit(b), Shr(q)), Shr(m))
  {
  }

  lemma LowMaskIsOdd(n: nat)
    requires n <= 15
    ensures LowMask(n) & 1 == 1
  {
    assert LowMask(1) == 0x7FFF;
    assert LowMask(2) == 0x3FFF;
    assert LowMask(3) == 0x1FFF;
    assert LowMask(4) == 0x0FFF;
    assert LowMask(5) == 0x07FF;
    assert LowMask(6) == 0x03FF;
    assert LowMask(7) == 0x01FF;
    assert LowMask(8) == 0x00FF;
    assert LowMask(9) == 0x007F;
    assert LowMask(10) == 0x003F;
    assert LowMask(11) == 0x001F;
    assert LowMask(12) == 0x000F;
    assert LowMask(13) == 0x0007;
    assert LowMask(14) == 0x0003;
    assert LowMask(15) == 0x0001;
  }

  lemma LowBitClear(q: bv16, m: bv16)
    requires Apart(q, m) && m & 1 == 1
    ensures Step(Shr(q)) == q
  {
  }

  lemma {:induction false} StepsFromFront(r: bv16, n: nat)
    requires n > 0
    ensures Steps(r, n) == Steps(Step(r), n - 1)
  {
    hide Step;
    if n > 1 {
      StepsFromFront(r, n - 1);
    }
  }

  lemma {:induction false} LoadThenStep(r: bv16, bits: seq<bool>)
    requires |bits| <= 16
    ensures Steps(Xor(r, Loaded(bits)), |bits|) == BitsFrom(r, bits)
    decreases |bits|
  {
    hide Step, Xor, Shr, TopBit, LowMask, Apart;
    if bits == [] {
      XorZero(r);
    } else {
      var t, rest := TopBit(bits[0]), bits[1..];
      var q := Loaded(rest);
      LoadedStaysHigh(rest);
      LowMaskIsOdd(|rest|);
      LowBitClear(q, LowMask(|rest|));
      XorAssociates(r, t, Shr(q));
      StepLinear(Xor(r, t), Shr(q));
      StepsFromFront(Xor(r, Loaded(bits)), |bits|);
      LoadThenStep(Step(Xor(r, t)), rest);
      assert bits == [bits[0]] + rest && [bits[0]][..0] == [];
      BitsFromAppend(r, [bits[0]], rest);
      assert BitsFrom(r, [bits[0]]) == Step(Xor(BitsFrom(r, []), t));
    }
  }

  // ----- Bytes as bits.

  lemma LoadPeels(c: byte)
    ensures Load(c) == Xor(TopBit(HighBit(c)), Shr(Load(c << 1)))
  {
  }

  lemma ShiftedOut(b: byte)
    ensures ShiftByte(b, 8) == 0
  {
    assert ShiftByte(b, 1) == b << 1; assert ShiftByte(b, 2) == b << 2; assert ShiftByte(b, 3) == b << 3;
    assert ShiftByte(b, 4) == b << 4; assert ShiftByte(b, 5) == b << 5; assert ShiftByte(b, 6) == b << 6;
    assert ShiftByte(b, 7) == b << 7;
  }

  lemma {:induction false} LoadedSuffix(b: byte, k: nat)
    requires k <= 8
    ensures Loaded(Bits8(b)[k..]) == Load(ShiftByte(b, k))
    decreases 8 - k
  {
    hide Load, Xor, TopBit, Shr, HighBit;
    if k == 8 {
      ShiftedOut(b);
      ZeroLoads();
    } else {
      LoadedSuffix(b, k + 1);
      LoadPeels(ShiftByte(b, k));
      assert Bits8(b)[k..][1..] == Bits8(b)[k + 1..];
    }
  }

  lemma ZeroLoads()
    ensures Load(0) == 0
  {
  }

  lemma LoadedByte(b: byte)
    ensures Loaded(Bits8(b)) == Load(b)
  {
    LoadedSuffix(b, 0);
    hide Load, Bits8, Loaded;
    assert Bits8(b)[0..] == Bits8(b);
  }

  /** The byte-wise CRC is the bit-wise division of the message's bits. */
  lemma {:induction false} BytesAreBits(r: bv16, message: seq<byte>)
    ensures CrcFrom(r, message) == BitsFrom(r, MessageBits(message))
  {
    hide Bits8, Load, Xor;
    if message != [] {
      var n := |message| - 1;
      BytesAreBits(r, message[..n]);
      LoadThenStep(CrcFrom(r, message[..n]), Bits8(message[n]));
      LoadedByte(message[n]);
      BitsFromAppend(r, MessageBits(message[..n]), Bits8(message[n]));
    }
  }

  // ----- The CRC is the remainder of polynomial division.

  // message * x^16 + initial * x^n, the polynomial that the initial value 0xFFFF stands for.
  function Dividend(bits: seq<bool>): (d: Poly)
    ensures |d| == |bits| + 16
  {
    Add(Bits16(INITIAL_REMAINDER) + Zero(|bits|), bits + Zero(16))
  }

  /** The first 16 message bits enter the division complemented, and 16 zeros follow the message. */
  lemma DividendBits(bits: seq<bool>, i: nat)
    requires i < |bits| + 16
    ensures Dividend(bits)[i] == (if i < |bits| && i >= 16 then bits[i] else if i < |bits| then !bits[i] else i < 16)
  {
    if i < 16 {
      AllOnes(i);
    }
    hide Bits16;
  }

  lemma AllOnes(k: nat)
    requires k < 16
    ensures Bits16(INITIAL_REMAINDER)[k]
  {
    var x := INITIAL_REMAINDER;
    assert Shls(x, 1) == 0xFFFE && Shls(x, 2) == 0xFFFC && Shls(x, 3) == 0xFFF8 && Shls(x, 4) == 0xFFF0;
    assert Shls(x, 5) == 0xFFE0 && Shls(x, 6) == 0xFFC0 && Shls(x, 7) == 0xFF80 && Shls(x, 8) == 0xFF00;
    assert Shls(x, 9) == 0xFE00 && Shls(x, 10) == 0xFC00 && Shls(x, 11) == 0xF800 && Shls(x, 12) == 0xF000;
    assert Shls(x, 13) == 0xE000 && Shls(x, 14) == 0xC000 && Shls(x, 15) == 0x8000;
    hide Shls;
  }

  // The quotient bits: one for every time the polynomial is taken off.
  function Quotient(bits: seq<bool>): (q: Poly)
    ensures |q| == |bits|
  {
    if bits == [] then [] else
      var n := |bits| - 1;
      Quotient(bits[..n]) + [Top(Xor(BitsFrom(INITIAL_REMAINDER, bits[..n]), TopBit(bits[n])))]
  }

  lemma {:induction false} ShlsXor(x: bv16, y: bv16, k: nat)
    ensures Shls(Xor(x, y), k) == Xor(Shls(x, k), Shls(y, k))
  {
    hide Xor, Shl;
    if k > 0 {
      ShlsXor(x, y, k - 1);
      ShlXor(Shls(x, k - 1), Shls(y, k - 1));
    }
  }

  lemma {:induction false} ShlsOfShl(x: bv16, k: nat)
    ensures Shls(Shl(x), k) == Shls(x, k + 1)
  {
    hide Shl;
    if k > 0 {
      ShlsOfShl(x, k - 1);
    }
  }

  lemma {:induction false} ShlsSum(x: bv16, j: nat, k: nat)
    ensures Shls(x, j + k) == Shls(Shls(x, j), k)
  {
    hide Shl;
    if k > 0 {
      ShlsSum(x, j, k - 1);
    }
  }

  lemma FourShifts(x: bv16)
    ensures Shls(x, 4) == x << 4
  {
    calc {
      Shls(x, 4);
      Shls(x, 3) << 1;
      (Shls(x, 2) << 1) << 1;
      ((Shls(x, 1) << 1) << 1) << 1;
      (((x << 1) << 1) << 1) << 1;
      x << 4;
    }
  }

  lemma ShlsEmpty(x: bv16)
    ensures Shls(x, 16) == 0
  {
    ShlsSum(x, 4, 4);
    ShlsSum(x, 8, 4);
    ShlsSum(x, 12, 4);
    FourShifts(x);
    FourShifts(x << 4);
    FourShifts((x << 4) << 4);
    FourShifts(((x << 4) << 4) << 4);
    hide Shls;
    assert (((x << 4) << 4) << 4) << 4 == 0;
  }

  lemma BitsXor(x: bv16, y: bv16)
    ensures forall k :: 0 <= k < 16 ==> Bits16(Xor(x, y))[k] == (Bits16(x)[k] != Bits16(y)[k])
  {
    hide Xor, Top, Shls;
    forall k | 0 <= k < 16 ensures Bits16(Xor(x, y))[k] == (Bits16(x)[k] != Bits16(y)[k]) {
      ShlsXor(x, y, k);
      TopXor(Shls(x, k), Shls(y, k));
    }
  }

  lemma BitsShl(x: bv16)
    ensures forall k :: 0 <= k < 15 ==> Bits16(Shl(x))[k] == Bits16(x)[k + 1]
    ensures !Bits16(Shl(x))[15]
  {
    hide Shl, Top, Shls;
    forall k | 0 <= k < 16 ensures Bits16(Shl(x))[k] == Top(Shls(x, k + 1)) {
      ShlsOfShl(x, k);
    }
    ShlsEmpty(x);
    assert !Top(0) by { TopOfZero(); }
  }

  lemma TopOfZero()
    ensures !Top(0)
  {
  }

  lemma PolynomialBits()
    ensures Bits16(POLYNOMIAL) == DIVISOR[1..]
  {
    assert Shls(POLYNOMIAL, 1) == 0x2042 && Shls(POLYNOMIAL, 2) == 0x4084 && Shls(POLYNOMIAL, 3) == 0x8108;
    assert Shls(POLYNOMIAL, 4) == 0x0210 && Shls(POLYNOMIAL, 5) == 0x0420 && Shls(POLYNOMIAL, 6) == 0x0840;
    assert Shls(POLYNOMIAL, 7) == 0x1080 && Shls(POLYNOMIAL, 8) == 0x2100 && Shls(POLYNOMIAL, 9) == 0x4200;
    assert Shls(POLYNOMIAL, 10) == 0x8400 && Shls(POLYNOMIAL, 11) == 0x0800 && Shls(POLYNOMIAL, 12) == 0x1000;
    assert Shls(POLYNOMIAL, 13) == 0x2000 && Shls(POLYNOMIAL, 14) == 0x4000 && Shls(POLYNOMIAL, 15) == 0x8000;
    hide Shls;
  }

  lemma TopBitBits(b: bool)
    ensures Bits16(TopBit(b))[0] == b
    ensures forall k :: 1 <= k < 16 ==> !Bits16(TopBit(b))[k]
  {
    forall k | 1 <= k < 16 ensures Shls(TopBit(b), k) == 0 {
      OneShiftEmpties(b, k);
    }
    hide Shls;
    assert Shls(TopBit(b), 0) == TopBit(b) by { NoShift(TopBit(b)); }
  }

  lemma NoShift(x: bv16)
    ensures Shls(x, 0) == x
  {
  }

  lemma {:induction false} OneShiftEmpties(b: bool, k: nat)
    requires k >= 1
    ensures Shls(TopBit(b), k) == 0
  {
    if k > 1 {
      OneShiftEmpties(b, k - 1);
    }
  }

  // The coefficients of the register before and after a step that takes off c times p.
  predicate RegisterMoves(r: Poly, r': Poly, p: Poly, c: bool, b: bool)
    requires |p| == 17 && |r| == |r'| == 16
  {
    && (r[0] != b) == c
    && (forall j :: 1 <= j < 16 ==> (r[j] != (c && p[j])) == r'[j - 1])
    && (c && p[16]) == r'[15]
  }

  lemma RegisterStep(r: bv16, b: bool)
    ensures var x := Xor(r, TopBit(b)); RegisterMoves(Bits16(r), Bits16(Step(x)), DIVISOR, Top(x), b)
  {
    hide Top, Xor, TopBit, Bits16, Shl;
    var x := Xor(r, TopBit(b));
    BitsXor(r, TopBit(b));
    TopBitBits(b);
    FirstBit(x);
    BitsShl(x);
    BitsXor(Shl(x), POLYNOMIAL);
    PolynomialBits();
    assert forall j :: 1 <= j <= 16 ==> DIVISOR[1..][j - 1] == DIVISOR[j];
  }

  lemma FirstBit(x: bv16)
    ensures Bits16(x)[0] == Top(x)
  {
  }

  lemma {:induction false} DivisionInvariant(bits: seq<bool>)
    ensures IsQuotient(Dividend(bits), DIVISOR, Quotient(bits), Bits16(BitsFrom(INITIAL_REMAINDER, bits)))
  {
    hide Step, Top, Xor, TopBit, Bits16, Mul;
    if bits == [] {
      NothingDivided();
    } else {
      var n := |bits| - 1;
      DivisionInvariant(bits[..n]);
      DivisionStep(bits);
    }
  }

  lemma NothingDivided()
    ensures IsQuotient(Dividend([]), DIVISOR, [], Bits16(INITIAL_REMAINDER))
  {
    hide Bits16;
    assert Mul([], DIVISOR) == Zero(16);
  }

  lemma DivisionStep(bits: seq<bool>)
    requires bits != []
    requires IsQuotient(Dividend(bits[..|bits| - 1]), DIVISOR, Quotient(bits[..|bits| - 1]),
                        Bits16(BitsFrom(INITIAL_REMAINDER, bits[..|bits| - 1])))
    ensures IsQuotient(Dividend(bits), DIVISOR, Quotient(bits), Bits16(BitsFrom(INITIAL_REMAINDER, bits)))
  {
    hide *;
    var n := |bits| - 1;
    var r, b, q := BitsFrom(INITIAL_REMAINDER, bits[..n]), bits[n], Quotient(bits[..n]);
    var c, r' := Top(Xor(r, TopBit(b))), Step(Xor(r, TopBit(b)));
    LastStep(bits);
    RegisterStep(r, b);
    DividendStep(bits);
    SchoolbookStep(Dividend(bits[..n]), Dividend(bits), DIVISOR, q, c, b, Bits16(r), Bits16(r'));
  }

  lemma LastStep(bits: seq<bool>)
    requires bits != []
    ensures var x := Xor(BitsFrom(INITIAL_REMAINDER, bits[..|bits| - 1]), TopBit(bits[|bits| - 1]));
            && BitsFrom(INITIAL_REMAINDER, bits) == Step(x)
            && Quotient(bits) == Quotient(bits[..|bits| - 1]) + [Top(x)]
    ensures |DIVISOR| == 17 && DIVISOR[0]
  {
    hide Step, Top, Xor, TopBit;
  }

  // e is d * x with b added at x^16.
  predicate DividendGrows(d: Poly, e: Poly, n: nat, b: bool)
    requires |d| == n + 16 && |e| == n + 17
  {
    (forall i :: 0 <= i < n + 16 && i != n ==> e[i] == d[i]) && e[n] == (d[n] != b) && !e[n + 16]
  }

  lemma DividendStep(bits: seq<bool>)
    requires bits != []
    ensures DividendGrows(Dividend(bits[..|bits| - 1]), Dividend(bits), |bits| - 1, bits[|bits| - 1])
  {
    hide Bits16;
  }

  // One step of the schoolbook division.
  lemma SchoolbookStep(d: Poly, e: Poly, p: Poly, q: Poly, c: bool, b: bool, r: Poly, r': Poly)
    requires |p| == 17 && p[0] && |d| == |q| + 16 && |e| == |d| + 1 && |r| == |r'| == 16
    requires DividendGrows(d, e, |q|, b) && IsQuotient(d, p, q, r) && RegisterMoves(r, r', p, c, b)
    ensures IsQuotient(e, p, q + [c], r')
  {
    hide Mul, IsQuotient, DividendGrows, RegisterMoves;
    Coefficients(d, p, q, r);
    StepCoefficients(d, e, p, q, c, b, r, r');
  }

  // d is m with r left in its last 16 coefficients.
  predicate Leaves(d: Poly, m: Poly, r: Poly, n: nat)
    requires |d| == |m| == n + 16 && |r| == 16
  {
    && (forall i :: 0 <= i < n ==> m[i] == d[i])
    && (forall i :: n <= i < n + 16 ==> (d[i] != m[i]) == r[i - n])
  }

  lemma StepCoefficients(d: Poly, e: Poly, p: Poly, q: Poly, c: bool, b: bool, r: Poly, r': Poly)
    requires |p| == 17 && p[0] && |d| == |q| + 16 && |e| == |d| + 1 && |r| == |r'| == 16
    requires DividendGrows(d, e, |q|, b) && RegisterMoves(r, r', p, c, b)
    requires Leaves(d, Mul(q, p), r, |q|)
    ensures IsQuotient(e, p, q + [c], r')
  {
    hide Mul, HornerStep, IsQuotient, DividendGrows, RegisterMoves, Leaves;
    MulSnoc(q, c, p);
    LeavesNext(d, e, Mul(q, p), p, c, b, r, r', |q|);
    QuotientOfLeaves(e, p, q + [c], r');
  }

  lemma QuotientOfLeaves(d: Poly, p: Poly, q: Poly, r: Poly)
    requires |p| == 17 && |d| == |q| + 16 && |r| == 16 && Leaves(d, Mul(q, p), r, |q|)
    ensures IsQuotient(d, p, q, r)
  {
    hide Mul, IsQuotient;
    FromCoefficients(d, p, q, r);
  }

  lemma LeavesNext(d: Poly, e: Poly, m: Poly, p: Poly, c: bool, b: bool, r: Poly, r': Poly, n: nat)
    requires |p| == 17 && p[0] && |d| == |m| == n + 16 && |e| == n + 17 && |r| == |r'| == 16
    requires DividendGrows(d, e, n, b) && RegisterMoves(r, r', p, c, b) && Leaves(d, m, r, n)
    ensures Leaves(e, HornerStep(m, c, p), r', n + 1)
  {
    forall i | 0 <= i < n + 1
      ensures HornerStep(m, c, p)[i] == e[i]
    {
      LowCoefficient(d, e, m, p, c, b, r, r', n, i);
    }
    forall i | n + 1 <= i < n + 17
      ensures (e[i] != HornerStep(m, c, p)[i]) == r'[i - (n + 1)]
    {
      HighCoefficient(d, e, m, p, c, b, r, r', n, i);
    }
    hide HornerStep, DividendGrows, RegisterMoves;
  }

  lemma MulSnoc(q: Poly, c: bool, p: Poly)
    requires |p| >= 1
    ensures Mul(q + [c], p) == HornerStep(Mul(q, p), c, p)
  {
    hide HornerStep;
    assert (q + [c])[..|q|] == q;
  }

  // The coefficients that one more digit of the quotient settles.
  lemma LowCoefficient(d: Poly, e: Poly, m: Poly, p: Poly, c: bool, b: bool, r: Poly, r': Poly, n: nat, i: nat)
    requires |p| == 17 && p[0] && |d| == |m| == n + 16 && |e| == n + 17 && |r| == |r'| == 16 && i <= n
    requires DividendGrows(d, e, n, b) && RegisterMoves(r, r', p, c, b)
    requires Leaves(d, m, r, n)
    ensures HornerStep(m, c, p)[i] == e[i]
  {
    hide HornerStep;
    assert n == |m| + 1 - |p|;
    if i == n {
      assert (d[n] != m[n]) == r[n - n];
      assert HornerStep(m, c, p)[n] == (m[n] != (c && p[n - n]));
    }
  }

  // The coefficients that stay in the register.
  lemma HighCoefficient(d: Poly, e: Poly, m: Poly, p: Poly, c: bool, b: bool, r: Poly, r': Poly, n: nat, i: nat)
    requires |p| == 17 && p[0] && |d| == |m| == n + 16 && |e| == n + 17 && |r| == |r'| == 16 && n < i <= n + 16
    requires DividendGrows(d, e, n, b) && RegisterMoves(r, r', p, c, b)
    requires Leaves(d, m, r, n)
    ensures (e[i] != HornerStep(m, c, p)[i]) == r'[i - (n + 1)]
  {
    hide HornerStep;
    var j := i - n;
    assert n == |m| + 1 - |p|;
    if j < 16 {
      assert (d[i] != m[i]) == r[i - n];
      assert (r[j] != (c && p[j])) == r'[j - 1];
      assert HornerStep(m, c, p)[i] == (m[i] != (c && p[i - n]));
    }
  }

  /** The CRC is the remainder of message * x^16 + 0xFFFF * x^n by x^16 + x^12 + x^5 + 1, and no
    other 16-bit string is. */
  lemma CrcIsRemainder(message: seq<byte>, r: Poly)
    ensures IsRemainder(Dividend(MessageBits(message)), DIVISOR, r) <==> r == Bits16(CrcOf(message))
  {
    var bits := MessageBits(message);
    BytesAreBits(INITIAL_REMAINDER, message);
    XorZero(CrcFrom(INITIAL_REMAINDER, message));
    DivisionInvariant(bits);
    hide Dividend, Bits16, Quotient, BitsFrom, CrcFrom, MessageBits, Xor, IsQuotient;
    assert IsRemainder(Dividend(bits), DIVISOR, Bits16(CrcOf(message)));
    if IsRemainder(Dividend(bits), DIVISOR, r) {
      RemainderUnique(Dividend(bits), DIVISOR, r, Bits16(CrcOf(message)));
    }
  }

  // ----- A message with its CRC behind it.

  lemma {:induction false} StepsSum(r: bv16, j: nat, k: nat)
    ensures Steps(r, j + k) == Steps(Steps(r, j), k)
  {
    hide Step;
    if k > 0 {
      StepsSum(r, j, k - 1);
    }
  }

  /** Two more bytes bring the remainder to zero exactly when they are the CRC, high byte first. */
  lemma TrailerIff(message: seq<byte>, hi: byte, lo: byte)
    ensures CrcOf(message + [hi, lo]) == 0 <==> hi == HighByte(CrcOf(message)) && lo == LowByte(CrcOf(message))
  {
    var c := CrcFrom(INITIAL_REMAINDER, message);
    hide Step, Steps, Load, Xor, HighByte, LowByte;
    XorZero(c);
    XorZero(CrcFrom(INITIAL_REMAINDER, message + [hi, lo]));
    CrcFromAppend(INITIAL_REMAINDER, message, [hi, lo]);
    assert [hi, lo][..1] == [hi] && [hi][..0] == [];
    assert CrcFrom(c, [hi]) == ByteStep(CrcFrom(c, []), hi);
    var low := lo as bv16;
    var x := Xor(c, Load(hi));
    LowByteOnlyShifts(low);
    StepsLinear(x, low, 8);
    StepsSum(Xor(x, low), 8, 8);
    StepsNonZero(Xor(x, low), 16);
    assert low << 8 == Load(lo) by { LoadIsShift(lo); }
    TrailerBytes(c, hi, lo);
  }

  lemma LoadIsShift(b: byte)
    ensures (b as bv16) << 8 == Load(b)
  {
  }

  lemma TrailerBytes(c: bv16, hi: byte, lo: byte)
    ensures Xor(Xor(c, Load(hi)), lo as bv16) == 0 <==> hi == HighByte(c) && lo == LowByte(c)
  {
  }
}
