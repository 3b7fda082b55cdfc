/** The packed passcode of tc_task.c: button presses as two-bit symbols in eight 32-bit words. */
module Passcode {
  type Press = v: bv32 | v < 4

  // A passcode buffer of eight words.
  predicate IsBuffer(w: seq<bv32>) { |w| == 8 }

  const CLEARED: seq<bv32> := [0, 0, 0, 0, 0, 0, 0, 0]

  // The word operations under names of their own, so that proofs reason about them as an algebra.
  function Or(x: bv32, y: bv32): bv32 { x | y }

  function And(x: bv32, y: bv32): bv32 { x & y }

  function Left(x: bv32): bv32 { x << 2 }

  function Right(x: bv32): bv32 { x >> 2 }

  function Low(x: bv32): bv32 { x & 3 }

  function Shl(x: bv32, n: nat): bv32
    requires n <= 32
  {
    x << n
  }

  function Shr(x: bv32, n: nat): bv32
    requires n <= 32
  {
    x >> n
  }

  // v shifted left by j symbols.
  function Place(v: bv32, j: nat): bv32 {
    if j == 0 then v else Left(Place(v, j - 1))
  }

  // Symbol k of a word.
  function Slot(w: bv32, k: nat): bv32 {
    if k == 0 then Low(w) else Slot(Right(w), k - 1)
  }

  // store_passcode at position i.
  function Stored(w: seq<bv32>, i: nat, v: Press): (r: seq<bv32>)
    requires IsBuffer(w) && i < 128
    ensures IsBuffer(r)
  {
    w[i / 16 := Or(w[i / 16], Place(v, i % 16))]
  }

  // Symbol i of a buffer.
  function Symbol(w: seq<bv32>, i: nat): bv32
    requires IsBuffer(w) && i < 128
  {
    Slot(w[i / 16], i % 16)
  }

  // A cleared buffer after storing the presses one by one; the position wraps at 128.
  function Encode(presses: seq<Press>): (w: seq<bv32>)
    ensures IsBuffer(w)
  {
    if presses == [] then CLEARED
    else Stored(Encode(presses[..|presses| - 1]), (|presses| - 1) % 128, presses[|presses| - 1])
  }

  const TERMINATOR: Press := 3

  // Reading a buffer back: the last non-zero symbol is the terminator.
  function Decode(w: seq<bv32>, n: nat): (s: seq<bv32>)
    requires IsBuffer(w) && n <= 128
  {
    if n == 0 then []
    else if Symbol(w, n - 1) != 0 then seq(n - 1, i requires 0 <= i < n - 1 => Symbol(w, i))
    else Decode(w, n - 1)
  }

  // Two entered sequences leave the same buffers.
  predicate SamePass(a: seq<Press>, b: seq<Press>) {
    Encode(a + [TERMINATOR]) == Encode(b + [TERMINATOR])
  }

  // compare_entered_passwords
  method ComparePasswords(w: seq<bv32>, w': seq<bv32>) returns (same: bool)
    requires IsBuffer(w) && IsBuffer(w')
    ensures same <==> w == w'
  {
    var i := 0;
    while i < 8
      invariant 0 <= i <= 8 && w[..i] == w'[..i]
    {
      if w[i] != w'[i] {
        return false;
      }
      i := i + 1;
    }
    assert w[..8] == w && w'[..8] == w';
    same := true;
  }

  // ------------------------------------------------------------------ symbols of a word

  lemma OrLow(x: bv32, y: bv32)
    ensures Low(Or(x, y)) == Or(Low(x), Low(y))
  {
  }

  lemma OrRight(x: bv32, y: bv32)
    ensures Right(Or(x, y)) == Or(Right(x), Right(y))
  {
  }

  lemma OrZero(x: bv32)
    ensures Or(0, x) == x && Or(x, 0) == x
  {
  }

  lemma OrFull(x: Press)
    ensures Or(x, 3) == 3
  {
  }

  lemma AndLow(x: bv32, m: bv32)
    requires Low(m) == 3
    ensures Low(And(x, m)) == Low(x)
  {
  }

  lemma AndRight(x: bv32, m: bv32)
    ensures Right(And(x, m)) == And(Right(x), Right(m))
  {
  }

  lemma RightLeft(x: bv32)
    ensures Right(Left(x)) == And(x, 0x3fff_ffff)
  {
  }

  lemma LowLeft(x: bv32)
    ensures Low(Left(x)) == 0
  {
  }

  lemma LowPress(v: Press)
    ensures Low(v) == v && Right(v) == 0
  {
  }

  lemma {:induction false} SlotOr(x: bv32, y: bv32, k: nat)
    ensures Slot(Or(x, y), k) == Or(Slot(x, k), Slot(y, k))
    decreases k
  {
    hide Or, Low, Right;
    OrLow(x, y);
    OrRight(x, y);
    if k != 0 {
      SlotOr(Right(x), Right(y), k - 1);
    }
  }

  lemma {:induction false} SlotAnd(x: bv32, m: bv32, k: nat)
    requires Full(m, k + 1)
    ensures Slot(And(x, m), k) == Slot(x, k)
    decreases k
  {
    hide And, Low, Right;
    AndRight(x, m);
    if k == 0 {
      AndLow(x, m);
    } else {
      SlotAnd(Right(x), Right(m), k - 1);
    }
  }

  // The lowest n symbols are all ones.
  predicate Full(m: bv32, n: nat) {
    n == 0 || (Low(m) == 3 && Full(Right(m), n - 1))
  }

  lemma Full3(m: bv32, n: nat)
    requires m & 0x3f == 0x3f && n >= 3 && Full(m >> 6, n - 3)
    ensures Full(m, n)
  {
    RightThrice(m);
    FullLow(m);
    hide Low, Right;
    assert Full(Right(Right(m)), n - 2);
    assert Full(Right(m), n - 1);
  }

  lemma RightThrice(m: bv32)
    ensures Right(Right(Right(m))) == m >> 6
  {
  }

  lemma FullLow(m: bv32)
    requires m & 0x3f == 0x3f
    ensures Low(m) == 3 && Low(Right(m)) == 3 && Low(Right(Right(m))) == 3
  {
  }

  lemma MaskFull()
    ensures Full(0x3fff_ffff, 15)
  {
    Full3(0x3f, 3);
    Full3(0xfff, 6);
    Full3(0x3_ffff, 9);
    Full3(0xff_ffff, 12);
    Full3(0x3fff_ffff, 15);
  }

  lemma {:induction false} FullFewer(m: bv32, n: nat, k: nat)
    requires Full(m, n) && k <= n
    ensures Full(m, k)
  {
    if k != 0 {
      FullFewer(Right(m), n - 1, k - 1);
    }
  }

  lemma {:induction false} SlotZero(k: nat)
    ensures Slot(0, k) == 0
  {
    LowPress(0);
    hide Low, Right;
    if k != 0 {
      SlotZero(k - 1);
    }
  }

  // A placed press is seen at its own position and nowhere else.
  lemma {:induction false} SlotPlace(v: Press, j: nat, k: nat)
    requires j < 16 && k < 16
    ensures Slot(Place(v, j), k) == if j == k then v else 0
  {
    hide And, Low, Right, Left, Full;
    LowPress(v);
    if j == 0 {
      if k != 0 {
        SlotZero(k - 1);
      }
    } else {
      var x := Place(v, j - 1);
      LowLeft(x);
      RightLeft(x);
      if k != 0 {
        SlotPlace(v, j - 1, k - 1);
        MaskFull();
        FullFewer(0x3fff_ffff, 15, k);
        SlotAnd(x, 0x3fff_ffff, k - 1);
      }
    }
  }

  // Placing a press is the shift that the code makes.
  lemma PlaceIsShift(v: Press, j: nat)
    requires j < 16
    ensures Place(v, j) == Shl(v, j * 2)
  {
    PlaceLow(v);
    PlaceHigh(v);
    ShlLow(v);
    ShlHigh(v);
    hide Place, Shl;
  }

  lemma ShlLow(v: bv32)
    ensures Shl(v, 0) == v && Shl(v, 2) == v << 2 && Shl(v, 4) == v << 4 && Shl(v, 6) == v << 6
    ensures Shl(v, 8) == v << 8 && Shl(v, 10) == v << 10 && Shl(v, 12) == v << 12 && Shl(v, 14) == v << 14
  {
  }

  lemma ShlHigh(v: bv32)
    ensures Shl(v, 16) == v << 16 && Shl(v, 18) == v << 18 && Shl(v, 20) == v << 20 && Shl(v, 22) == v << 22
    ensures Shl(v, 24) == v << 24 && Shl(v, 26) == v << 26 && Shl(v, 28) == v << 28 && Shl(v, 30) == v << 30
  {
  }

  lemma LeftShifts(v: bv32)
    ensures Left(v) == v << 2 && Left(v << 2) == v << 4 && Left(v << 4) == v << 6 && Left(v << 6) == v << 8
    ensures Left(v << 8) == v << 10 && Left(v << 10) == v << 12 && Left(v << 12) == v << 14
    ensures Left(v << 14) == v << 16 && Left(v << 16) == v << 18 && Left(v << 18) == v << 20
    ensures Left(v << 20) == v << 22 && Left(v << 22) == v << 24 && Left(v << 24) == v << 26
    ensures Left(v << 26) == v << 28 && Left(v << 28) == v << 30
  {
  }

  lemma PlaceLow(v: bv32)
    ensures Place(v, 0) == v && Place(v, 1) == v << 2 && Place(v, 2) == v << 4 && Place(v, 3) == v << 6
    ensures Place(v, 4) == v << 8 && Place(v, 5) == v << 10 && Place(v, 6) == v << 12 && Place(v, 7) == v << 14
  {
    LeftShifts(v);
    hide Left;
    assert Place(v, 1) == Left(Place(v, 0)) && Place(v, 2) == Left(Place(v, 1)) && Place(v, 3) == Left(Place(v, 2));
    assert Place(v, 4) == Left(Place(v, 3)) && Place(v, 5) == Left(Place(v, 4)) && Place(v, 6) == Left(Place(v, 5));
  }

  lemma PlaceHigh(v: bv32)
    ensures Place(v, 8) == v << 16 && Place(v, 9) == v << 18 && Place(v, 10) == v << 20 && Place(v, 11) == v << 22
    ensures Place(v, 12) == v << 24 && Place(v, 13) == v << 26 && Place(v, 14) == v << 28 && Place(v, 15) == v << 30
  {
    PlaceLow(v);
    LeftShifts(v);
    hide Left;
    assert Place(v, 8) == Left(Place(v, 7)) && Place(v, 9) == Left(Place(v, 8)) && Place(v, 10) == Left(Place(v, 9));
    assert Place(v, 11) == Left(Place(v, 10)) && Place(v, 12) == Left(Place(v, 11));
    assert Place(v, 13) == Left(Place(v, 12)) && Place(v, 14) == Left(Place(v, 13));
  }

  // ------------------------------------------------------------------ symbols of a buffer

  // A symbol is two bits of its word.
  lemma SlotIsBits(w: bv32, k: nat)
    requires k < 16
    ensures Slot(w, k) == Low(Shr(w, k * 2))
  {
    SlotRights(w, k);
    RightsAreShr(w, k);
    hide Slot, Shr, Low;
  }

  lemma RightsAreShr(w: bv32, k: nat)
    requires k < 16
    ensures Rights(w, k) == Shr(w, k * 2)
  {
    RightsLow(w);
    RightsHigh(w);
    ShrLow(w);
    ShrHigh(w);
    hide Rights, Shr;
  }

  lemma ShrLow(w: bv32)
    ensures Shr(w, 0) == w && Shr(w, 2) == w >> 2 && Shr(w, 4) == w >> 4 && Shr(w, 6) == w >> 6
    ensures Shr(w, 8) == w >> 8 && Shr(w, 10) == w >> 10 && Shr(w, 12) == w >> 12 && Shr(w, 14) == w >> 14
  {
  }

  lemma ShrHigh(w: bv32)
    ensures Shr(w, 16) == w >> 16 && Shr(w, 18) == w >> 18 && Shr(w, 20) == w >> 20 && Shr(w, 22) == w >> 22
    ensures Shr(w, 24) == w >> 24 && Shr(w, 26) == w >> 26 && Shr(w, 28) == w >> 28 && Shr(w, 30) == w >> 30
  {
  }

  lemma RightShifts(w: bv32)
    ensures Right(w) == w >> 2 && Right(w >> 2) == w >> 4 && Right(w >> 4) == w >> 6 && Right(w >> 6) == w >> 8
    ensures Right(w >> 8) == w >> 10 && Right(w >> 10) == w >> 12 && Right(w >> 12) == w >> 14
    ensures Right(w >> 14) == w >> 16 && Right(w >> 16) == w >> 18 && Right(w >> 18) == w >> 20
    ensures Right(w >> 20) == w >> 22 && Right(w >> 22) == w >> 24 && Right(w >> 24) == w >> 26
    ensures Right(w >> 26) == w >> 28 && Right(w >> 28) == w >> 30
  {
  }

  // w shifted right by k symbols.
  function Rights(w: bv32, k: nat): bv32 {
    if k == 0 then w else Right(Rights(w, k - 1))
  }

  lemma {:induction false} RightFirst(w: bv32, k: nat)
    ensures Rights(w, k + 1) == Rights(Right(w), k)
  {
    hide Right;
    if k != 0 {
      RightFirst(w, k - 1);
    }
  }

  lemma {:induction false} SlotRights(w: bv32, k: nat)
    ensures Slot(w, k) == Low(Rights(w, k))
    decreases k
  {
    hide Right, Low;
    if k != 0 {
      SlotRights(Right(w), k - 1);
      RightFirst(w, k - 1);
    }
  }

  lemma RightsLow(w: bv32)
    ensures Rights(w, 0) == w && Rights(w, 1) == w >> 2 && Rights(w, 2) == w >> 4 && Rights(w, 3) == w >> 6
    ensures Rights(w, 4) == w >> 8 && Rights(w, 5) == w >> 10 && Rights(w, 6) == w >> 12 && Rights(w, 7) == w >> 14
  {
    RightShifts(w);
    hide Right;
    assert Rights(w, 1) == Right(Rights(w, 0)) && Rights(w, 2) == Right(Rights(w, 1));
    assert Rights(w, 3) == Right(Rights(w, 2)) && Rights(w, 4) == Right(Rights(w, 3));
    assert Rights(w, 5) == Right(Rights(w, 4)) && Rights(w, 6) == Right(Rights(w, 5));
  }

  lemma RightsHigh(w: bv32)
    ensures Rights(w, 8) == w >> 16 && Rights(w, 9) == w >> 18 && Rights(w, 10) == w >> 20
    ensures Rights(w, 11) == w >> 22 && Rights(w, 12) == w >> 24 && Rights(w, 13) == w >> 26
    ensures Rights(w, 14) == w >> 28 && Rights(w, 15) == w >> 30
  {
    RightsLow(w);
    RightShifts(w);
    hide Right;
    assert Rights(w, 8) == Right(Rights(w, 7)) && Rights(w, 9) == Right(Rights(w, 8));
    assert Rights(w, 10) == Right(Rights(w, 9)) && Rights(w, 11) == Right(Rights(w, 10));
    assert Rights(w, 12) == Right(Rights(w, 11)) && Rights(w, 13) == Right(Rights(w, 12));
    assert Rights(w, 14) == Right(Rights(w, 13));
  }

  // A word is its symbols.
  lemma SlotsDetermine(x: bv32, y: bv32)
    requires forall k :: 0 <= k < 16 ==> Slot(x, k) == Slot(y, k)
    ensures x == y
  {
    RightsHigh(x);
    RightsHigh(y);
    LastShift(x);
    LastShift(y);
    hide Low, Right;
    WordFromFront(x, y, 16);
  }

  lemma LastShift(w: bv32)
    ensures Right(w >> 30) == 0
  {
  }

  lemma {:induction false} WordFromFront(x: bv32, y: bv32, n: nat)
    requires n <= 16 && forall k :: 0 <= k < n ==> Slot(x, k) == Slot(y, k)
    requires Rights(x, n) == Rights(y, n)
    ensures x == y
    decreases n
  {
    hide Low, Right;
    if n != 0 {
      forall k | 0 <= k < n - 1
        ensures Slot(Right(x), k) == Slot(Right(y), k)
      {
        assert Slot(x, k + 1) == Slot(y, k + 1);
      }
      RightFirst(x, n - 1);
      RightFirst(y, n - 1);
      WordFromFront(Right(x), Right(y), n - 1);
      assert Slot(x, 0) == Slot(y, 0);
      LowAndRight(x, y);
    }
  }

  lemma LowAndRight(x: bv32, y: bv32)
    requires Low(x) == Low(y) && Right(x) == Right(y)
    ensures x == y
  {
  }

  /** A buffer is its symbols. */
  lemma SymbolsDetermine(w: seq<bv32>, w': seq<bv32>)
    requires IsBuffer(w) && IsBuffer(w') && forall i :: 0 <= i < 128 ==> Symbol(w, i) == Symbol(w', i)
    ensures w == w'
  {
    forall j | 0 <= j < 8
      ensures w[j] == w'[j]
    {
      forall k | 0 <= k < 16
        ensures Slot(w[j], k) == Slot(w'[j], k)
      {
        SymbolAt(w, j, k);
        SymbolAt(w', j, k);
      }
      SlotsDetermine(w[j], w'[j]);
    }
  }

  lemma SymbolAt(w: seq<bv32>, j: nat, k: nat)
    requires IsBuffer(w) && j < 8 && k < 16
    ensures Symbol(w, 16 * j + k) == Slot(w[j], k)
  {
    hide Slot;
    assert (16 * j + k) / 16 == j && (16 * j + k) % 16 == k;
  }

  function Number(v: bv32): nat { v as nat }

  // The buffer writes these numbers, a terminator, and nothing else.
  ghost predicate Writes(w: seq<bv32>, numbers: seq<nat>) {
    && IsBuffer(w)
    && forall i :: 0 <= i < 128 ==>
      Number(Symbol(w, i)) == if i < |numbers| then numbers[i] else if i == |numbers| then 3 else 0
  }

  /** Up to 127 presses and a terminator leave the one buffer that writes their numbers. */
  lemma EncodeWrites(s: seq<Press>, numbers: seq<nat>)
    requires |s| == |numbers| <= 127 && forall i :: 0 <= i < |s| ==> Number(s[i]) == numbers[i]
    ensures Writes(Encode(s + [TERMINATOR]), numbers)
    ensures forall w :: Writes(w, numbers) ==> w == Encode(s + [TERMINATOR])
  {
    NumberOfPress(3);
    NumberOfPress(0);
    hide Encode, Symbol, Number;
    var e := s + [TERMINATOR];
    forall i | 0 <= i < 128
      ensures Number(Symbol(Encode(e), i)) == if i < |numbers| then numbers[i] else if i == |numbers| then 3 else 0
    {
      EncodedSymbols(e, i);
    }
    forall w | Writes(w, numbers)
      ensures w == Encode(e)
    {
      forall i | 0 <= i < 128
        ensures Symbol(w, i) == Symbol(Encode(e), i)
      {
        SymbolSmall(w, i);
        SymbolSmall(Encode(e), i);
        SameNumber(Symbol(w, i), Symbol(Encode(e), i));
      }
      SymbolsDetermine(w, Encode(e));
    }
  }

  lemma SameNumber(x: Press, y: Press)
    requires Number(x) == Number(y)
    ensures x == y
  {
    NumberOfPress(x);
    NumberOfPress(y);
    hide Number;
  }

  lemma NumberOfPress(x: Press)
    ensures Number(x) == if x == 0 then 0 else if x == 1 then 1 else if x == 2 then 2 else 3
  {
    assert x == 0 || x == 1 || x == 2 || x == 3;
  }

  lemma {:induction false} SlotSmall(w: bv32, k: nat)
    ensures Slot(w, k) < 4
    decreases k
  {
    hide Right;
    if k != 0 {
      SlotSmall(Right(w), k - 1);
    }
  }

  lemma SymbolSmall(w: seq<bv32>, i: nat)
    requires IsBuffer(w) && i < 128
    ensures Symbol(w, i) < 4
  {
    SlotSmall(w[i / 16], i % 16);
  }

  // Storing a press, as the code does it: a bitwise or into one word.
  lemma StoredWord(w: seq<bv32>, i: nat, v: Press)
    requires IsBuffer(w) && i < 128
    ensures Stored(w, i, v) == w[i / 16 := w[i / 16] | Shl(v, i % 16 * 2)]
  {
    PlaceIsShift(v, i % 16);
    hide Place, Shl;
  }

  lemma SymbolStored(w: seq<bv32>, i: nat, v: Press, k: nat)
    requires IsBuffer(w) && i < 128 && k < 128
    ensures Symbol(Stored(w, i, v), k) == if k == i then Or(Symbol(w, k), v) else Symbol(w, k)
  {
    hide Or, Slot, Place;
    SlotOr(w[i / 16], Place(v, i % 16), k % 16);
    SlotPlace(v, i % 16, k % 16);
    OrZero(Slot(w[i / 16], k % 16));
    assert i == i / 16 * 16 + i % 16 && k == k / 16 * 16 + k % 16;
  }

  lemma SymbolCleared(k: nat)
    requires k < 128
    ensures Symbol(CLEARED, k) == 0
  {
    SlotZero(k % 16);
  }

  // Up to 128 presses do not overlap.
  lemma {:induction false} EncodedSymbols(s: seq<Press>, k: nat)
    requires |s| <= 128 && k < 128
    ensures Symbol(Encode(s), k) == if k < |s| then s[k] else 0
  {
    hide Symbol, Stored, Or;
    if s == [] {
      SymbolCleared(k);
    } else {
      var n := |s| - 1;
      EncodedSymbols(s[..n], k);
      SymbolStored(Encode(s[..n]), n, s[n], k);
      OrZero(s[n]);
    }
  }

  // Decoding gives back the presses before the terminator.
  lemma DecodeEncode(s: seq<Press>)
    requires |s| <= 127
    ensures Decode(Encode(s + [TERMINATOR]), 128) == s
  {
    var e := s + [TERMINATOR];
    DecodeFrom(e, 128);
  }

  lemma {:induction false} DecodeFrom(e: seq<Press>, n: nat)
    requires 0 < |e| <= n <= 128 && e[|e| - 1] != 0
    ensures Decode(Encode(e), n) == e[..|e| - 1]
  {
    hide Encode, Symbol;
    EncodedSymbols(e, n - 1);
    if n > |e| {
      DecodeFrom(e, n - 1);
    } else {
      forall i | 0 <= i < n - 1
        ensures Symbol(Encode(e), i) == e[i]
      {
        EncodedSymbols(e, i);
      }
    }
  }

  /** With at most 127 presses each, the buffers agree exactly when the sequences do. */
  lemma SamePassIffEqual(a: seq<Press>, b: seq<Press>)
    requires |a| <= 127 && |b| <= 127
    ensures SamePass(a, b) <==> a == b
  {
    hide Encode, Decode;
    DecodeEncode(a);
    DecodeEncode(b);
  }

  // The buffer after n presses of button 4 (symbol 3) has its first n symbols full, and no more than 128.
  lemma {:induction false} EncodedThrees(n: nat, k: nat)
    requires k < 128
    ensures Symbol(Encode(seq(n, i => TERMINATOR)), k) == if k < n then 3 else 0
  {
    hide Symbol, Stored, Or;
    var s := seq(n, i => TERMINATOR);
    if n == 0 {
      assert s == [];
      SymbolCleared(k);
    } else {
      assert s[..n - 1] == seq(n - 1, i => TERMINATOR);
      EncodedThrees(n - 1, k);
      SymbolStored(Encode(s[..n - 1]), (n - 1) % 128, 3, k);
      OrFull(3);
      OrFull(0);
    }
  }

  lemma OrThree(x: bv32)
    requires Low(x) == 3
    ensures Or(x, 3) == x
  {
  }

  // The 129th press lands on the first position again.
  lemma ThreesCollide()
    ensures SamePass(seq(127, i => TERMINATOR), seq(128, i => TERMINATOR))
  {
    hide Symbol, Stored, Or;
    var s: seq<Press>, t: seq<Press> := seq(128, i => TERMINATOR), seq(129, i => TERMINATOR);
    assert seq(127, i => TERMINATOR) + [TERMINATOR] == s;
    assert s + [TERMINATOR] == t && t[..128] == s;
    EncodedThrees(128, 0);
    assert Encode(t) == Stored(Encode(s), 0, 3);
    StoredAgain(Encode(s));
  }

  lemma StoredAgain(w: seq<bv32>)
    requires IsBuffer(w) && Symbol(w, 0) == 3
    ensures Stored(w, 0, 3) == w
  {
    hide Or, Low;
    OrThree(w[0]);
    assert Place(3, 0) == 3;
  }

  ghost predicate LosslessUpTo(n: nat) {
    forall a: seq<Press>, b: seq<Press> :: |a| <= n && |b| <= n ==> (SamePass(a, b) <==> a == b)
  }

  /** The packed passcode is lossless for sequences of up to n presses exactly when n <= 127. */
  lemma LosslessExactly(n: nat)
    ensures LosslessUpTo(n) <==> n <= 127
  {
    hide SamePass;
    if n <= 127 {
      forall a: seq<Press>, b: seq<Press> | |a| <= n && |b| <= n
        ensures SamePass(a, b) <==> a == b
      {
        SamePassIffEqual(a, b);
      }
    } else {
      ThreesCollide();
      var a: seq<Press>, b: seq<Press> := seq(127, i => TERMINATOR), seq(128, i => TERMINATOR);
      assert SamePass(a, b) && a != b && |a| <= n && |b| <= n;
    }
  }
}
