/** The general-purpose fuse editor of flashc.c: 64 one-bit fuses that an erase command sets and a
    write command clears, seen through bit-fields, bytes and the bootloader-protected size. */
module Fuses {
  import opened Arith

  // The number whose binary digits, least significant first, are b.
  function ToNat(b: seq<bool>): nat {
    if b == [] then 0 else (if b[0] then 1 else 0) + 2 * ToNat(b[1..])
  }

  // v shifted right by i places, and its binary digit i.
  function Shifted(v: nat, i: nat): nat {
    if i == 0 then v else Shifted(v, i - 1) / 2
  }

  function Bit(v: nat, i: nat): bool { Shifted(v, i) % 2 == 1 }

  function Digits(v: nat, w: nat): (b: seq<bool>)
    ensures |b| == w
  {
    seq(w, i requires 0 <= i => Bit(v, i))
  }

  // Leading zeros of the n-bit word x.
  function Clz(x: nat, n: nat): (z: nat)
    ensures z <= n
  {
    if n == 0 || x >= Pow2(n - 1) then 0 else 1 + Clz(x, n - 1)
  }

  // What a 64-fuse word becomes when bits pos .. pos + width - 1, counted modulo 64, take the value.
  function SetField(fuses: seq<bool>, pos: nat, width: nat, value: nat): (g: seq<bool>)
    requires |fuses| == 64 && pos < 64
    ensures |g| == 64
  {
    seq(64, f requires 0 <= f < 64 =>
      var i := if pos <= f then f - pos else f + 64 - pos;
      if i < width then Bit(value, i) else fuses[f])
  }

  // Programming can only clear fuses.
  function Cleared(fuses: seq<bool>, value: seq<bool>): (g: seq<bool>)
    requires |fuses| == |value|
    ensures |g| == |fuses|
  {
    seq(|fuses|, f requires 0 <= f < |fuses| => fuses[f] && value[f])
  }

  function WithByte(fuses: seq<bool>, k: nat, b: seq<bool>): (g: seq<bool>)
    requires |fuses| == 64 && k < 8 && |b| == 8
    ensures |g| == 64
  {
    fuses[..8 * k] + b + fuses[8 * k + 8..]
  }

  function ByteOf(fuses: seq<bool>, k: nat): (b: seq<bool>)
    requires |fuses| == 64 && k < 8
    ensures |b| == 8
  {
    fuses[8 * k..8 * k + 8]
  }

  const ONES: seq<bool> := seq(64, f => true)

  class FuseBank {
    var fuses: seq<bool>
    const page: nat
    const bootSize: nat
    const bootOffset: nat

    // The device constants: a page of at least one byte, a BOOTPROT field inside the fuses, and sizes that
    // fit an unsigned 32-bit word.
    ghost predicate Valid()
      reads this
    {
      |fuses| == 64 && page > 0 && 0 < bootSize < 64 && bootOffset + bootSize <= 64 &&
      page * Pow2(Pow2(bootSize) - 1) + page <= 0x1_0000_0000
    }

    constructor (fuses: seq<bool>, page: nat, bootSize: nat, bootOffset: nat)
      requires |fuses| == 64 && page > 0 && 0 < bootSize < 64 && bootOffset + bootSize <= 64
      requires page * Pow2(Pow2(bootSize) - 1) + page <= 0x1_0000_0000
      ensures Valid() && this.fuses == fuses && this.page == page
      ensures this.bootSize == bootSize && this.bootOffset == bootOffset
    {
      this.fuses, this.page, this.bootSize, this.bootOffset := fuses, page, bootSize, bootOffset;
    }

    method EraseBit(bit: nat)
      requires |fuses| == 64
      modifies `fuses
      ensures fuses == old(fuses)[bit % 64 := true]
    {
      fuses := fuses[bit % 64 := true];
    }

    method WriteBit(bit: nat, value: bool)
      requires |fuses| == 64
      modifies `fuses
      ensures fuses == if value then old(fuses) else old(fuses)[bit % 64 := false]
    {
      if !value {
        fuses := fuses[bit % 64 := false];
      }
    }

    method SetBit(bit: nat, value: bool)
      requires |fuses| == 64
      modifies `fuses
      ensures fuses == old(fuses)[bit % 64 := value]
    {
      if value {
        EraseBit(bit);
      } else {
        WriteBit(bit, false);
      }
    }

    method SetBitfield(pos0: nat, width0: nat, value0: nat)
      requires |fuses| == 64 && value0 < Pow2(64)
      modifies `fuses
      ensures fuses == SetField(old(fuses), pos0 % 64, Min(width0, 64), value0)
    {
      hide SetField, Pow2;
      var pos, width, value := pos0 % 64, Min(width0, 64), value0;
      var bit := pos;
      ghost var was := fuses;
      SetFieldNone(was, pos, value0);
      while bit < pos + width
        invariant pos <= bit <= pos + width
        invariant value == Shifted(value0, bit - pos)
        invariant fuses == SetField(was, pos, bit - pos, value0)
      {
        SetFieldNext(was, pos, bit - pos, value0);
        SetBit(bit, value % 2 == 1);
        bit, value := bit + 1, value / 2;
      }
    }

    // The check reads the bit-field back.
    method EraseBitfield(pos0: nat, width0: nat, check: bool) returns (ok: bool)
      requires |fuses| == 64 && width0 < 64
      modifies `fuses
      ensures fuses == SetField(old(fuses), pos0 % 64, width0, Pow2(width0) - 1)
      ensures ok <==> !check || pos0 % 64 + width0 <= 64
    {
      hide SetField, Pow2, Bit, ToNat;
      var pos, width := pos0 % 64, Min(width0, 64);
      var bit := pos;
      ghost var was := fuses;
      SetFieldNone(was, pos, Pow2(width) - 1);
      while bit < pos + width
        invariant pos <= bit <= pos + width
        invariant fuses == SetField(was, pos, bit - pos, Pow2(width) - 1)
      {
        SetFieldNext(was, pos, bit - pos, Pow2(width) - 1);
        OnesBit(width, bit - pos);
        EraseBit(bit);
        bit := bit + 1;
      }
      if check {
        var field := ReadBitfield(pos, width);
        ErasedReads(was, pos, width);
        return field == Pow2(width) - 1;
      }
      ok := true;
    }

    // Programming alone clears fuses where the value has zeros.
    method WriteBitfield(pos0: nat, width0: nat, value0: nat)
      requires |fuses| == 64 && value0 < Pow2(64)
      modifies `fuses
      ensures fuses == Cleared(old(fuses), SetField(ONES, pos0 % 64, Min(width0, 64), value0))
    {
      hide SetField, Pow2, Cleared;
      var pos, width, value := pos0 % 64, Min(width0, 64), value0;
      var bit := pos;
      ghost var was := fuses;
      SetFieldNone(ONES, pos, value0);
      ClearedNone(was);
      while bit < pos + width
        invariant pos <= bit <= pos + width
        invariant value == Shifted(value0, bit - pos)
        invariant fuses == Cleared(was, SetField(ONES, pos, bit - pos, value0))
      {
        SetFieldNext(ONES, pos, bit - pos, value0);
        ClearedNext(was, pos, bit - pos, value0);
        WriteBit(bit, value % 2 == 1);
        bit, value := bit + 1, value / 2;
      }
    }

    // The 64-bit shift of the mask has a defined meaning only for widths below 64.
    method ReadBitfield(pos: nat, width: nat) returns (r: nat)
      requires |fuses| == 64 && width < 64
      ensures r == ToNat(fuses[pos % 64..Min(64, pos % 64 + width)])
    {
      r := ToNat(fuses) / Pow2(pos % 64) % Pow2(width);
      ToNatShift(fuses, pos % 64);
      ToNatMask(fuses[pos % 64..], width);
      assert fuses[pos % 64..][..Min(width, 64 - pos % 64)] == fuses[pos % 64..Min(64, pos % 64 + width)];
    }

    method GetBootloaderProtectedSize() returns (r: nat)
      requires Valid()
      ensures var k := Pow2(bootSize) - 1 - ToNat(fuses[bootOffset..bootOffset + bootSize]);
              k >= 0 && r == if k == 0 then 0 else page * Pow2(k)
    {
      var field := ReadBitfield(bootOffset, bootSize);
      ToNatBound(fuses[bootOffset..bootOffset + bootSize]);
      var bootprot: nat := Pow2(bootSize) - 1 - field;
      r := if bootprot != 0 then page * Pow2(bootprot) else 0;
    }

    method SetBootloaderProtectedSize(size: nat) returns (r: nat)
      requires Valid() && size < 0x1_0000_0000
      modifies `fuses
      ensures Valid()
      ensures IsProtection(r, size, page, Pow2(bootSize) - 1)
      ensures forall f :: 0 <= f < 64 && !(bootOffset <= f < bootOffset + bootSize) ==> fuses[f] == old(fuses[f])
    {
      hide Pow2, SetField, ToNat, Clz, IsProtection, Pages, BootCode;
      Pow2Monotone(1, bootSize);
      Pow2One();
      var top: nat := Pow2(bootSize) - 1;
      var value: nat := top;
      if size != 0 {
        BootCodeFits(size, page, top);
        BootCodeUnfolds(size, page, top);
        value := top - (32 - Clz((Min(Max(size, page * 2), page * Pow2(top)) + page - 1) / page * 2 - 1, 32) - 1);
      }
      Pow2Monotone(bootSize, 64);
      SetBitfield(bootOffset, bootSize, value);
      StoredCode(old(fuses), bootOffset, bootSize, value);
      r := GetBootloaderProtectedSize();
      BootCodeIsProtection(size, page, top);
    }

    method WriteByte(k: nat, value: nat)
      requires |fuses| == 64 && value < 256
      modifies `fuses
      ensures fuses == WithByte(old(fuses), k % 8, Cleared(ByteOf(old(fuses), k % 8), Digits(value, 8)))
    {
      fuses := WithByte(fuses, k % 8, Cleared(ByteOf(fuses, k % 8), Digits(value, 8)));
    }

    method EraseAll()
      requires |fuses| == 64
      modifies `fuses
      ensures fuses == ONES
    {
      fuses := ONES;
    }

    method ReadByte(k: nat) returns (r: nat)
      requires |fuses| == 64
      ensures r == ToNat(ByteOf(fuses, k % 8))
    {
      r := ToNat(fuses) / Pow2(k % 8 * 8) % 256;
      Pow2Eight();
      ToNatShift(fuses, k % 8 * 8);
      ToNatMask(fuses[k % 8 * 8..], 8);
      assert fuses[k % 8 * 8..][..8] == ByteOf(fuses, k % 8);
    }

    // A single byte cannot be erased: all fuses are, and the other seven bytes are written back.
    method EraseByte(k: nat, check: bool) returns (ok: bool)
      requires |fuses| == 64
      modifies `fuses
      ensures fuses == ErasedByte(old(fuses), k)
      ensures ok <==> !check || ByteOf(fuses, k % 8) == seq(8, i => true)
      ensures k < 8 ==> ok
    {
      hide Restored, Digits, Cleared, WithByte, ByteOf, ErasedByte;
      ghost var was := fuses;
      var value := ToNat(fuses);
      ghost var word := value;
      EraseAll();
      RestoredNone(was, k);
      var cur: nat := 0;
      while cur < 8
        invariant 0 <= cur <= 8
        invariant value == Shifted(word, 8 * cur)
        invariant Restored(fuses, was, cur, k)
      {
        RestoredNext(fuses, was, cur, k, value);
        if cur != k {
          WriteByte(cur, value % 256);
        }
        ShiftedByte(word, 8 * cur);
        cur, value := cur + 1, value / 256;
      }
      RestoredAll(fuses, was, k);
      ErasedByteHolds(was, k);
      if check {
        var b := ReadByte(k);
        FullByte(ByteOf(fuses, k % 8));
        return b == 0xFF;
      }
      ok := true;
    }

    method SetByte(k: nat, value: nat)
      requires |fuses| == 64 && value < 256
      modifies `fuses
      ensures k < 8 ==> fuses == WithByte(old(fuses), k, Digits(value, 8))
      ensures k >= 8 ==>
        fuses == WithByte(old(fuses), k % 8, Cleared(ByteOf(old(fuses), k % 8), Digits(value, 8)))
    {
      hide Digits, ToNat, ErasedByte, WithByte, ByteOf, Cleared;
      SetByteCases(fuses, k, value);
      if value == 255 {
        var ok := EraseByte(k, false);
      } else if value == 0 {
        WriteByte(k, 0);
      } else {
        var ok := EraseByte(k, false);
        WriteByte(k, value);
      }
    }

    method WriteAll(value0: nat)
      requires |fuses| == 64 && value0 < Pow2(64)
      modifies `fuses
      ensures fuses == Cleared(old(fuses), Digits(value0, 64))
    {
      hide Narrowed, Digits, Cleared, WithByte, ByteOf, Pow2, Shifted;
      assert value0 == Shifted(value0, 0) by {
        ShiftedNone(value0);
      }
      ghost var was := fuses;
      var value := value0;
      NarrowedNone(was, value0);
      var cur: nat := 0;
      while cur < 8
        invariant 0 <= cur <= 8
        invariant value == Shifted(value0, 8 * cur)
        invariant Narrowed(fuses, was, cur, value0)
      {
        NarrowedNext(fuses, was, cur, value0, value);
        WriteByte(cur, value % 256);
        ShiftedByte(value0, 8 * cur);
        cur, value := cur + 1, value / 256;
      }
      NarrowedAll(fuses, was, value0);
    }

    method SetAll(value: nat)
      requires |fuses| == 64 && value < Pow2(64)
      modifies `fuses
      ensures fuses == Digits(value, 64)
    {
      hide Digits, Cleared, Pow2;
      DigitsOfWord(value);
      ClearedOnes(fuses, Digits(value, 64));
      if value == Pow2(64) - 1 {
        EraseAll();
      } else if value == 0 {
        WriteAll(0);
      } else {
        EraseAll();
        WriteAll(value);
      }
    }
  }

  function ErasedByte(fuses: seq<bool>, k: nat): (g: seq<bool>)
    requires |fuses| == 64
    ensures |g| == 64
  {
    seq(64, f requires 0 <= f < 64 => 8 * k <= f < 8 * k + 8 || fuses[f])
  }

  // ------------------------------------------------------------------ digits

  lemma {:induction false} ToNatBound(b: seq<bool>)
    ensures ToNat(b) < Pow2(|b|)
  {
    if b != [] {
      ToNatBound(b[1..]);
    }
  }

  // Shifting the number drops its low digits.
  lemma {:induction false} ToNatShift(b: seq<bool>, p: nat)
    requires p <= |b|
    ensures ToNat(b) / Pow2(p) == ToNat(b[p..])
  {
    if p == 0 {
      assert b[0..] == b;
    } else {
      DivDiv(ToNat(b), Pow2(p - 1));
      assert ToNat(b) / 2 == ToNat(b[1..]);
      ToNatShift(b[1..], p - 1);
      assert b[1..][p - 1..] == b[p..];
    }
  }

  // Masking the number keeps its low digits.
  lemma {:induction false} ToNatMask(b: seq<bool>, w: nat)
    ensures ToNat(b) % Pow2(w) == ToNat(b[..Min(w, |b|)])
  {
    if w == 0 {
      DivUnique(ToNat(b), ToNat(b), 1, 0);
    } else if b == [] {
      ModSmall(0, Pow2(w));
    } else {
      ModDouble(if b[0] then 1 else 0, ToNat(b[1..]), Pow2(w - 1));
      ToNatMask(b[1..], w - 1);
      assert b[..Min(w, |b|)][1..] == b[1..][..Min(w - 1, |b| - 1)];
    }
  }

  lemma ShiftedNone(v: nat)
    ensures Shifted(v, 0) == v
  {
  }

  lemma {:induction false} ShiftedFirst(v: nat, i: nat)
    ensures Shifted(v, i + 1) == Shifted(v / 2, i)
  {
    if i != 0 {
      ShiftedFirst(v, i - 1);
    }
  }

  lemma {:induction false} DigitsTail(v: nat, w: nat)
    requires w > 0
    ensures Digits(v, w)[0] == (v % 2 == 1) && Digits(v, w)[1..] == Digits(v / 2, w - 1)
  {
    forall i | 0 <= i < w - 1
      ensures Digits(v, w)[1..][i] == Digits(v / 2, w - 1)[i]
    {
      ShiftedFirst(v, i);
    }
  }

  // The digits of a number are worth the number, modulo the width.
  lemma {:induction false} DigitsWorth(v: nat, w: nat)
    ensures ToNat(Digits(v, w)) == v % Pow2(w)
  {
    if w == 0 {
      DivUnique(v, v, 1, 0);
    } else {
      DigitsTail(v, w);
      DigitsWorth(v / 2, w - 1);
      ModDouble(v % 2, v / 2, Pow2(w - 1));
    }
  }

  // And the digits of the worth are the digits.
  lemma {:induction false} WorthDigits(b: seq<bool>)
    ensures Digits(ToNat(b), |b|) == b
  {
    if b != [] {
      DigitsTail(ToNat(b), |b|);
      WorthDigits(b[1..]);
      assert ToNat(b) / 2 == ToNat(b[1..]);
      assert Digits(ToNat(b), |b|) == [b[0]] + b[1..];
    }
  }

  lemma {:induction false} ShiftedAdd(v: nat, a: nat, b: nat)
    ensures Shifted(v, a + b) == Shifted(Shifted(v, a), b)
  {
    if b != 0 {
      ShiftedAdd(v, a, b - 1);
    }
  }

  lemma ShiftedFour(v: nat)
    ensures Shifted(v, 4) == v / 16
  {
    assert Shifted(v, 1) == v / 2;
    assert Shifted(v, 2) == v / 4;
    assert Shifted(v, 3) == v / 8;
  }

  lemma ShiftedByte(v: nat, a: nat)
    ensures Shifted(v, a + 8) == Shifted(v, a) / 256
  {
    hide Shifted;
    var x := Shifted(v, a);
    ShiftedAdd(v, a, 8);
    ShiftedFour(x);
    ShiftedAdd(x, 4, 4);
    ShiftedFour(Shifted(x, 4));
    assert x / 16 / 16 == x / 256;
  }

  lemma LowDigits(v: nat)
    ensures Digits(v % 256, 8) == Digits(v, 8)
  {
    Pow2Eight();
    DigitsWorth(v, 8);
    WorthDigits(Digits(v, 8));
  }

  lemma ByteDigits(word: nat, a: nat, value: nat)
    requires value == Shifted(word, a)
    ensures forall i :: 0 <= i < 8 ==> Digits(value % 256, 8)[i] == Bit(word, a + i)
  {
    LowDigits(value);
    forall i | 0 <= i < 8
      ensures Digits(value, 8)[i] == Bit(word, a + i)
    {
      ShiftedAdd(word, a, i);
    }
  }

  lemma SavedByte(was: seq<bool>, cur: nat, value: nat)
    requires |was| == 64 && cur < 8 && value == Shifted(ToNat(was), 8 * cur)
    ensures Digits(value % 256, 8) == was[8 * cur..8 * cur + 8]
  {
    ByteDigits(ToNat(was), 8 * cur, value);
    WorthDigits(was);
    forall i | 0 <= i < 8
      ensures Digits(value % 256, 8)[i] == was[8 * cur + i]
    {
      assert Digits(ToNat(was), 64)[8 * cur + i] == Bit(ToNat(was), 8 * cur + i);
    }
  }

  lemma {:induction false} AllDigits(w: nat, d: bool)
    ensures Digits(if d then Pow2(w) - 1 else 0, w) == seq(w, i => d)
  {
    if w != 0 {
      var v: nat := if d then Pow2(w) - 1 else 0;
      DigitsTail(v, w);
      AllDigits(w - 1, d);
      assert v / 2 == if d then Pow2(w - 1) - 1 else 0;
      assert Digits(v, w) == [d] + seq(w - 1, i => d);
    }
  }

  lemma DigitsOfByte(value: nat)
    requires value < 256
    ensures value == 255 ==> Digits(value, 8) == seq(8, i => true)
    ensures value == 0 ==> Digits(value, 8) == seq(8, i => false)
  {
    Pow2Eight();
    AllDigits(8, true);
    AllDigits(8, false);
  }

  lemma DigitsOfWord(value: nat)
    requires value < Pow2(64)
    ensures value == Pow2(64) - 1 ==> Digits(value, 64) == ONES
    ensures value == 0 ==> Digits(value, 64) == seq(64, i => false)
  {
    AllDigits(64, true);
    AllDigits(64, false);
  }

  // ------------------------------------------------------------------ bit-fields

  lemma SetFieldNone(fuses: seq<bool>, pos: nat, value: nat)
    requires |fuses| == 64 && pos < 64
    ensures SetField(fuses, pos, 0, value) == fuses
  {
    hide Bit;
  }

  lemma SetFieldNext(fuses: seq<bool>, pos: nat, width: nat, value: nat)
    requires |fuses| == 64 && pos < 64 && width < 64
    ensures SetField(fuses, pos, width + 1, value) ==
            SetField(fuses, pos, width, value)[(pos + width) % 64 := Bit(value, width)]
  {
    hide Bit;
  }

  lemma OnesBit(w: nat, i: nat)
    requires i < w
    ensures Bit(Pow2(w) - 1, i)
  {
    AllDigits(w, true);
    assert Digits(Pow2(w) - 1, w)[i] == Bit(Pow2(w) - 1, i);
  }

  lemma OnesOverflow(pos: nat, width: nat)
    requires pos < 64 && width < 64
    ensures (Pow2(width) - 1) % Pow2(width) == Pow2(width) - 1
    ensures pos + width > 64 ==> Pow2(width) - 1 >= Pow2(64 - pos)
  {
    ModSmall(Pow2(width) - 1, Pow2(width));
    if pos + width > 64 {
      Pow2Monotone(64 - pos + 1, width);
      assert Pow2(64 - pos + 1) == 2 * Pow2(64 - pos);
    }
  }

  lemma ErasedReads(fuses: seq<bool>, pos: nat, width: nat)
    requires |fuses| == 64 && pos < 64 && width < 64
    ensures ToNat(SetField(fuses, pos, width, Pow2(width) - 1)[pos..Min(64, pos + width)]) == Pow2(width) - 1
            <==> pos + width <= 64
  {
    hide SetField, ToNat, Pow2;
    ReadBackExactly(fuses, pos, width, Pow2(width) - 1);
    OnesOverflow(pos, width);
  }

  lemma ClearedNone(fuses: seq<bool>)
    requires |fuses| == 64
    ensures Cleared(fuses, ONES) == fuses
  {
  }

  lemma ClearedNext(fuses: seq<bool>, pos: nat, width: nat, value: nat)
    requires |fuses| == 64 && pos < 64 && width < 64
    ensures var f := (pos + width) % 64; var g := Cleared(fuses, SetField(ONES, pos, width, value));
            Cleared(fuses, SetField(ONES, pos, width, value)[f := Bit(value, width)])
            == if Bit(value, width) then g else g[f := false]
  {
    hide Bit;
    var f := (pos + width) % 64;
    assert SetField(ONES, pos, width, value)[f];
  }

  // What reading a bit-field back gives after setting it: the value's digits below the top of the fuses.
  lemma ReadBack(fuses: seq<bool>, pos: nat, width: nat, value: nat)
    requires |fuses| == 64 && pos < 64 && width <= 64
    ensures ToNat(SetField(fuses, pos, width, value)[pos..Min(64, pos + width)]) == value % Pow2(Min(width, 64 - pos))
  {
    var m := Min(width, 64 - pos);
    assert SetField(fuses, pos, width, value)[pos..pos + m] == Digits(value, m) by {
      hide Bit;
    }
    DigitsWorth(value, m);
  }

  // Reading back returns the low digits of the value exactly when the field does not run past fuse 63,
  // or the digits that would run past it are zero.
  lemma ReadBackExactly(fuses: seq<bool>, pos: nat, width: nat, value: nat)
    requires |fuses| == 64 && pos < 64 && width < 64
    ensures ToNat(SetField(fuses, pos, width, value)[pos..Min(64, pos + width)]) == value % Pow2(width)
            <==> (pos + width <= 64 || value % Pow2(width) < Pow2(64 - pos))
  {
    ReadBack(fuses, pos, width, value);
    if pos + width > 64 {
      var m := 64 - pos;
      ModMod(value, width, m);
      ModBelow(value % Pow2(width), Pow2(m));
    }
  }

  lemma ModMod(v: nat, w: nat, m: nat)
    requires m <= w
    ensures v % Pow2(w) % Pow2(m) == v % Pow2(m)
  {
    DigitsWorth(v, w);
    DigitsWorth(v, m);
    ToNatMask(Digits(v, w), m);
    assert Digits(v, w)[..m] == Digits(v, m) by {
      hide Bit;
    }
  }

  // A field that stays inside the fuses changes no other fuse; one that does not wraps to the first ones.
  lemma OtherFuses(fuses: seq<bool>, pos: nat, width: nat, value: nat, f: nat)
    requires |fuses| == 64 && pos < 64 && width <= 64 && f < 64
    ensures f < pos && pos + width <= 64 + f ==> SetField(fuses, pos, width, value)[f] == fuses[f]
    ensures pos + width <= f ==> SetField(fuses, pos, width, value)[f] == fuses[f]
    ensures f < pos && pos + width > 64 + f ==> SetField(fuses, pos, width, value)[f] == Bit(value, f + 64 - pos)
  {
    hide Bit;
  }

  lemma OthersKept(fuses: seq<bool>, pos: nat, width: nat, value: nat)
    requires |fuses| == 64 && pos + width <= 64
    requires pos < 64
    ensures forall f :: 0 <= f < 64 && !(pos <= f < pos + width) ==> SetField(fuses, pos, width, value)[f] == fuses[f]
  {
    hide Bit;
  }

  // ------------------------------------------------------------------ bootloader-protected size

  ghost predicate Supported(r: nat, page: nat, top: nat) {
    exists k: nat :: 1 <= k <= top && r == page * Pow2(k)
  }

  // The size protected for a request: none for zero, otherwise the smallest supported size that is large
  // enough, or the largest one when the request exceeds it.
  ghost predicate IsProtection(r: nat, size: nat, page: nat, top: nat) {
    if size == 0 then r == 0
    else if size > page * Pow2(top) then r == page * Pow2(top)
    else r >= size && Supported(r, page, top) && forall r': nat :: Supported(r', page, top) && r' >= size ==> r' >= r
  }

  // Bytes of a request clamped to the supported sizes, and its number of pages, rounded up.
  function Clamped(size: nat, page: nat, top: nat): nat {
    Min(Max(size, page * 2), page * Pow2(top))
  }

  function Pages(size: nat, page: nat, top: nat): nat
    requires page > 0
  {
    (Clamped(size, page, top) + page - 1) / page
  }

  // The exponent that the firmware extracts with the count-leading-zeros instruction.
  function BootCode(size: nat, page: nat, top: nat): int
    requires page > 0
  {
    if size == 0 || Pages(size, page, top) == 0 then 0 else 31 - Clz(2 * Pages(size, page, top) - 1, 32)
  }

  // Rounding up: c pages hold m bytes and c - 1 do not.
  lemma Ceiling(m: nat, page: nat)
    requires page > 0 && m > 0
    ensures var c := (m + page - 1) / page; c >= 1 && (c - 1) * page < m <= c * page
  {
    var v := m + page - 1;
    var c, r := v / page, v % page;
    assert v == c * page + r;
    if c == 0 {
      MulMono(c, 0, page);
      assert false;
    }
    assert (c - 1) * page == c * page - page;
  }

  lemma {:induction false} ClzBounds(x: nat, n: nat)
    requires 0 < x < Pow2(n)
    ensures Clz(x, n) < n
    ensures Pow2(n - Clz(x, n) - 1) <= x < Pow2(n - Clz(x, n))
  {
    if n > 0 && x < Pow2(n - 1) {
      ClzBounds(x, n - 1);
    }
  }

  lemma PagesBounds(size: nat, page: nat, top: nat)
    requires page > 0 && top >= 1
    ensures 2 <= Pages(size, page, top) <= Pow2(top)
    ensures (Pages(size, page, top) - 1) * page < Clamped(size, page, top) <= Pages(size, page, top) * page
  {
    Pow2Monotone(1, top);
    assert Pow2(1) == 2;
    MulMono(2, Pow2(top), page);
    Ceiling(Clamped(size, page, top), page);
    PagesBetween(Pages(size, page, top), page, Clamped(size, page, top), Pow2(top));
  }

  lemma PagesBetween(c: nat, page: nat, m: nat, p: nat)
    requires (c - 1) * page < m <= c * page
    requires page * 2 <= m <= page * p && page > 0
    ensures 2 <= c <= p
  {
    if c < 2 {
      MulMono(c, 1, page);
      assert false;
    }
    if c > p {
      MulMono(p, c - 1, page);
      assert false;
    }
  }

  lemma TopFits(page: nat, top: nat)
    requires page > 0 && page * Pow2(top) + page <= 0x1_0000_0000
    ensures top <= 31 && Pow2(top + 1) <= Pow2(32)
  {
    Pow2ThirtyTwo();
    MulMono(1, page, Pow2(top));
    if top >= 32 {
      Pow2Monotone(32, top);
      assert false;
    }
    Pow2Monotone(top + 1, 32);
  }

  // The exponent is the base-two logarithm of the page count, rounded up.
  lemma BootCodeFits(size: nat, page: nat, top: nat)
    requires page > 0 && top >= 1 && size > 0 && page * Pow2(top) + page <= 0x1_0000_0000
    ensures 1 <= BootCode(size, page, top) <= top
    ensures Pow2(BootCode(size, page, top) - 1) < Pages(size, page, top) <= Pow2(BootCode(size, page, top))
  {
    hide Clamped, Pages, Clz, Pow2;
    PagesBounds(size, page, top);
    TopFits(page, top);
    RoundedLog(Pages(size, page, top), top);
  }

  lemma RoundedLog(c: nat, top: nat)
    requires 2 <= c <= Pow2(top) && Pow2(top + 1) <= Pow2(32)
    ensures var k := 31 - Clz(2 * c - 1, 32); 1 <= k <= top && Pow2(k - 1) < c <= Pow2(k)
  {
    Pow2Next(top);
    hide Clz, Pow2;
    ClzBounds(2 * c - 1, 32);
    RoundedBetween(c, top, 31 - Clz(2 * c - 1, 32));
  }

  lemma Pow2Next(k: nat)
    ensures Pow2(k + 1) == 2 * Pow2(k)
  {
  }

  // The power of two just below 2 * c - 1 is at least c, and half of it less than c.
  lemma RoundedBetween(c: nat, top: nat, k: int)
    requires 2 <= c <= Pow2(top) && k >= 0 && Pow2(k) <= 2 * c - 1 < Pow2(k + 1)
    ensures 1 <= k <= top && Pow2(k - 1) < c <= Pow2(k)
  {
    Pow2One();
    Pow2Next(k);
    if k > 0 {
      Pow2Next(k - 1);
    }
    hide Pow2;
    Pow2Next(top);
    if k > top {
      Pow2Monotone(top + 1, k);
      assert false;
    }
  }

  lemma BootCodeUnfolds(size: nat, page: nat, top: nat)
    requires page > 0 && top >= 1 && size > 0
    ensures var c := (Min(Max(size, page * 2), page * Pow2(top)) + page - 1) / page;
            c >= 1 && BootCode(size, page, top) == 31 - Clz(c * 2 - 1, 32)
  {
    hide Clz, Pow2;
    PagesBounds(size, page, top);
  }

  lemma StoredCode(fuses: seq<bool>, pos: nat, width: nat, value: nat)
    requires |fuses| == 64 && pos + width <= 64 && 0 < width < 64 && value < Pow2(width)
    ensures ToNat(SetField(fuses, pos, width, value)[pos..pos + width]) == value
    ensures forall f :: 0 <= f < 64 && !(pos <= f < pos + width) ==> SetField(fuses, pos, width, value)[f] == fuses[f]
  {
    hide Pow2, ToNat, SetField;
    ReadBack(fuses, pos, width, value);
    ModSmall(value, Pow2(width));
    OthersKept(fuses, pos, width, value);
  }

  lemma ScaledBelow(page: nat, j: nat, k: nat, c: nat)
    requires j < k && Pow2(k - 1) < c
    ensures page * Pow2(j) <= (c - 1) * page
  {
    Pow2Monotone(j, k - 1);
    MulMono(Pow2(j), c - 1, page);
  }

  lemma ScaledLess(page: nat, k: nat, top: nat)
    requires page > 0 && k < top
    ensures page * Pow2(k) < page * Pow2(top)
  {
    Pow2Monotone(k + 1, top);
    MulMono(Pow2(k) + 1, Pow2(top), page);
    assert page * (Pow2(k) + 1) == page * Pow2(k) + page;
  }

  lemma BootCodeIsProtection(size: nat, page: nat, top: nat)
    requires page > 0 && top >= 1 && page * Pow2(top) + page <= 0x1_0000_0000
    ensures BootCode(size, page, top) >= 0
    ensures BootCode(size, page, top) == 0 <==> size == 0
    ensures var k := BootCode(size, page, top);
            IsProtection(if k == 0 then 0 else page * Pow2(k), size, page, top)
  {
    if size != 0 {
      BootCodeIsSmallest(size, page, top);
    }
  }

  lemma BootCodeIsSmallest(size: nat, page: nat, top: nat)
    requires page > 0 && top >= 1 && size > 0 && page * Pow2(top) + page <= 0x1_0000_0000
    ensures BootCode(size, page, top) >= 1
    ensures IsProtection(page * Pow2(BootCode(size, page, top)), size, page, top)
  {
    hide Pow2, BootCode, Pages;
    BootCodeFits(size, page, top);
    PagesBounds(size, page, top);
    var k, c := BootCode(size, page, top), Pages(size, page, top);
    MulMono(c, Pow2(k), page);
    if size > page * Pow2(top) {
      if k < top {
        ScaledLess(page, k, top);
        assert false;
      }
    } else {
      forall r': nat | Supported(r', page, top) && r' >= size
        ensures r' >= page * Pow2(k)
      {
        SmallestCode(r', size, page, top, k, c);
      }
    }
  }

  lemma SmallestCode(r': nat, size: nat, page: nat, top: nat, k: nat, c: nat)
    requires page > 0 && k > 0 && Supported(r', page, top) && r' >= size && size <= page * Pow2(top)
    requires Pow2(k - 1) < c && (c - 1) * page < Clamped(size, page, top)
    ensures r' >= page * Pow2(k)
  {
    hide Pow2;
    var j: nat :| 1 <= j <= top && r' == page * Pow2(j);
    if j < k {
      ScaledBelow(page, j, k, c);
      ScaledBelow(page, 1, k, c);
      Pow2One();
      assert false;
    }
    Pow2Monotone(k, j);
    MulMono(Pow2(k), Pow2(j), page);
  }

  // ------------------------------------------------------------------ bytes

  lemma FullByte(b: seq<bool>)
    requires |b| == 8
    ensures ToNat(b) == 0xFF <==> b == seq(8, i => true)
  {
    WorthDigits(b);
    DigitsOfByte(255);
    DigitsWorth(255, 8);
    Pow2Eight();
    hide Digits, ToNat, Pow2;
    ModSmall(255, 256);
  }

  lemma ErasedByteHolds(fuses: seq<bool>, k: nat)
    requires |fuses| == 64
    ensures k < 8 ==> ByteOf(ErasedByte(fuses, k), k % 8) == seq(8, i => true)
  {
  }

  // Erasing one byte, up to byte cur: the bytes before it hold their old digits again.
  ghost predicate Restored(g: seq<bool>, was: seq<bool>, cur: nat, k: nat) {
    |g| == 64 && |was| == 64 &&
    forall f :: 0 <= f < 64 ==> g[f] == (f >= 8 * cur || 8 * k <= f < 8 * k + 8 || was[f])
  }

  lemma RestoredNone(was: seq<bool>, k: nat)
    requires |was| == 64
    ensures Restored(ONES, was, 0, k)
  {
  }

  lemma RestoredAll(g: seq<bool>, was: seq<bool>, k: nat)
    requires Restored(g, was, 8, k)
    ensures |was| == 64 && g == ErasedByte(was, k)
  {
  }

  // Programming a byte, fuse by fuse.
  lemma ByteProgrammed(g: seq<bool>, cur: nat, d: seq<bool>, f: nat)
    requires |g| == 64 && cur < 8 && |d| == 8 && f < 64
    ensures WithByte(g, cur, Cleared(ByteOf(g, cur), d))[f] ==
            if 8 * cur <= f < 8 * cur + 8 then g[f] && d[f - 8 * cur] else g[f]
  {
  }

  lemma RestoredNext(g: seq<bool>, was: seq<bool>, cur: nat, k: nat, value: nat)
    requires Restored(g, was, cur, k) && cur < 8 && value == Shifted(ToNat(was), 8 * cur)
    ensures |g| == 64
    ensures cur != k ==> Restored(WithByte(g, cur, Cleared(ByteOf(g, cur), Digits(value % 256, 8))), was, cur + 1, k)
    ensures cur == k ==> Restored(g, was, cur + 1, k)
  {
    hide Digits, ToNat, Shifted, WithByte, Cleared, ByteOf;
    SavedByte(was, cur, value);
    var b := Digits(value % 256, 8);
    var t := WithByte(g, cur, Cleared(ByteOf(g, cur), b));
    forall f | 0 <= f < 64 && cur != k
      ensures t[f] == (f >= 8 * (cur + 1) || 8 * k <= f < 8 * k + 8 || was[f])
    {
      ByteProgrammed(g, cur, b, f);
      assert 8 * cur <= f < 8 * cur + 8 ==> was[f] == b[f - 8 * cur];
    }
  }

  ghost predicate Narrowed(g: seq<bool>, was: seq<bool>, cur: nat, word: nat) {
    |g| == 64 && |was| == 64 &&
    forall f :: 0 <= f < 64 ==> g[f] == (was[f] && (f >= 8 * cur || Bit(word, f)))
  }

  lemma NarrowedNone(was: seq<bool>, word: nat)
    requires |was| == 64
    ensures Narrowed(was, was, 0, word)
  {
  }

  lemma NarrowedAll(g: seq<bool>, was: seq<bool>, word: nat)
    requires Narrowed(g, was, 8, word)
    ensures |was| == 64 && g == Cleared(was, Digits(word, 64))
  {
    hide Bit;
  }

  lemma NarrowedNext(g: seq<bool>, was: seq<bool>, cur: nat, word: nat, value: nat)
    requires Narrowed(g, was, cur, word) && cur < 8 && value == Shifted(word, 8 * cur)
    ensures |g| == 64
    ensures Narrowed(WithByte(g, cur, Cleared(ByteOf(g, cur), Digits(value % 256, 8))), was, cur + 1, word)
  {
    hide Digits, Shifted, Bit, WithByte, Cleared, ByteOf;
    ByteDigits(word, 8 * cur, value);
    var b := Digits(value % 256, 8);
    var t := WithByte(g, cur, Cleared(ByteOf(g, cur), b));
    forall f | 0 <= f < 64
      ensures t[f] == (was[f] && (f >= 8 * (cur + 1) || Bit(word, f)))
    {
      ByteProgrammed(g, cur, b, f);
      assert 8 * cur <= f < 8 * cur + 8 ==> b[f - 8 * cur] == Bit(word, 8 * cur + (f - 8 * cur));
    }
  }

  lemma ClearedOnes(fuses: seq<bool>, b: seq<bool>)
    requires |fuses| == 64 && |b| == 64
    ensures Cleared(ONES, b) == b
    ensures b == seq(64, i => false) ==> Cleared(fuses, b) == b
  {
  }

  // The three ways of setting a byte agree: programming zeros needs no erasure, and all ones need no programming.
  lemma SetByteCases(fuses: seq<bool>, k: nat, value: nat)
    requires |fuses| == 64 && value < 256
    ensures k < 8 && value == 255 ==> ErasedByte(fuses, k) == WithByte(fuses, k, Digits(value, 8))
    ensures k < 8 && value == 0 ==>
      WithByte(fuses, k, Cleared(ByteOf(fuses, k), Digits(value, 8))) == WithByte(fuses, k, Digits(value, 8))
    ensures k < 8 ==> var e := ErasedByte(fuses, k);
      WithByte(e, k, Cleared(ByteOf(e, k), Digits(value, 8))) == WithByte(fuses, k, Digits(value, 8))
    ensures k >= 8 ==> ErasedByte(fuses, k) == fuses
    ensures k >= 8 && value == 255 ==>
      WithByte(fuses, k % 8, Cleared(ByteOf(fuses, k % 8), Digits(value, 8))) == fuses
  {
    hide Digits;
    DigitsOfByte(value);
    if k < 8 {
      SetErased(fuses, k, Digits(value, 8));
    }
  }

  lemma SetErased(fuses: seq<bool>, k: nat, b: seq<bool>)
    requires |fuses| == 64 && k < 8 && |b| == 8
    ensures var e := ErasedByte(fuses, k);
            WithByte(e, k, Cleared(ByteOf(e, k), b)) == WithByte(fuses, k, b)
  {
    var e := ErasedByte(fuses, k);
    assert Cleared(ByteOf(e, k), b) == b;
    assert e[..8 * k] == fuses[..8 * k];
    assert e[8 * k + 8..] == fuses[8 * k + 8..];
  }
}
