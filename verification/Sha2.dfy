/** The incremental SHA-2 contexts of hmac/sha2.c, for every member of the family.

  The C file repeats the same functions for SHA-224, SHA-256, SHA-384 and SHA-512; here the
  variant is the Suite of the context. */
module Sha2 {
  import opened Arith
  import opened Bytes
  import opened Fips180

  // unsigned int is 32 bits wide on the target.
  const UINT: nat := 0x1_0000_0000

  // The padding that the final function builds: FIPS padding, except that the length field
  // holds only the low 32 bits of the bit length.
  function CodePadding<W(!new)>(su: Suite<W>, n: nat): seq<byte> {
    [0x80] + Zeros(ZeroCount(su, n) + su.LengthField() - 4) + BigEndian(8 * n % UINT, 4)
  }

  ghost function CodeHash<W(!new)>(su: Suite<W>, iv: Regs<W>, message: seq<byte>): Regs<W>
    requires su.Valid()
  {
    Blocks(su, iv, message + CodePadding(su, |message|))
  }

  // What the code produces, for messages of any length.
  ghost function CodeDigest<W(!new)>(su: Suite<W>, iv: Regs<W>, message: seq<byte>): seq<byte>
    requires su.Valid()
  {
    DigestBytes(su, CodeHash(su, iv, message))
  }

  /** The code's padding is the standard's exactly for messages shorter than 2^29 bytes
    (among the lengths the standard allows). */
  lemma CodePaddingIsStandard<W(!new)>(su: Suite<W>, n: nat)
    requires 8 * n < Pow256(su.LengthField())
    ensures CodePadding(su, n) == Padding(su, n) <==> n < 0x2000_0000
  {
    var lf, z := su.LengthField(), ZeroCount(su, n);
    BigEndianSplit(8 * n, lf);
    HighWord(8 * n, lf);
    hide BigEndian, Pow256, ZeroCount;
    var high, low := BigEndian(8 * n / UINT, lf - 4), BigEndian(8 * n % UINT, 4);
    var head := [0x80] + Zeros(z);
    assert CodePadding(su, n) == head + Zeros(lf - 4) + low;
    assert Padding(su, n) == head + high + low;
    if CodePadding(su, n) == Padding(su, n) {
      assert (head + Zeros(lf - 4) + low)[1 + z..1 + z + lf - 4] == Zeros(lf - 4);
      assert (head + high + low)[1 + z..1 + z + lf - 4] == high;
    }
  }

  lemma HighWord(v: nat, n: nat)
    requires n >= 4 && v < Pow256(n)
    ensures BigEndian(v / UINT, n - 4) == Zeros(n - 4) <==> v < UINT
  {
    assert Pow256(n) == 0x1_0000 * Pow256(n - 2);
    assert Pow256(n - 2) == 0x1_0000 * Pow256(n - 4);
    BigEndianZero(v / UINT, n - 4);
  }

  /** The digest of the standard, for messages shorter than 2^29 bytes. */
  lemma CodeDigestIsStandard<W(!new)>(su: Suite<W>, iv: Regs<W>, message: seq<byte>)
    requires su.Valid() && |message| < 0x2000_0000
    ensures CodeDigest(su, iv, message) == Digest(su, iv, message)
  {
    LengthFieldRoom(su);
    CodePaddingIsStandard(su, |message|);
  }

  lemma LengthFieldRoom<W(!new)>(su: Suite<W>)
    ensures Pow256(su.LengthField()) > UINT
  {
    assert Pow256(2) == 0x1_0000;
    assert Pow256(4) == 0x1_0000_0000;
    assert Pow256(6) == 0x1_0000_0000_0000;
    if su.wide {
      assert Pow256(10) >= Pow256(8);
      assert Pow256(12) >= Pow256(10);
      assert Pow256(14) >= Pow256(12);
    }
  }

  lemma WholeOctets(n: nat)
    ensures n % 8 == 0 ==> 8 * (n / 8) == n
  {
  }

  ghost predicate IsSchedule<W(!new)>(su: Suite<W>, w: seq<W>, block: seq<byte>) {
    |block| == su.B() && |w| == su.rounds && forall t :: 0 <= t < su.rounds ==> w[t] == Schedule(su, block, t)
  }

  // The eight values of wv that go by the names a..h.
  function Named<W(!new)>(wv: seq<W>, a: nat, b: nat, c: nat, d: nat, e: nat, f: nat, g: nat, h: nat): Regs<W>
    requires |wv| == 8 && a < 8 && b < 8 && c < 8 && d < 8 && e < 8 && f < 8 && g < 8 && h < 8
  {
    Regs(wv[a], wv[b], wv[c], wv[d], wv[e], wv[f], wv[g], wv[h])
  }

  function InPlace<W(!new)>(wv: seq<W>): Regs<W>
    requires |wv| == 8
  {
    Regs(wv[0], wv[1], wv[2], wv[3], wv[4], wv[5], wv[6], wv[7])
  }

  // The whole blocks of the message are in h, the rest of it is the tail waiting in the block
  // buffer, and totLen counts the hashed bytes modulo the width of unsigned int.
  ghost predicate Absorbed<W(!new)>(su: Suite<W>, iv: Regs<W>, message: seq<byte>, tail: seq<byte>,
                                    h: Regs<W>, totLen: nat)
    requires su.Valid()
  {
    && |tail| < su.B() && |tail| <= |message|
    && var n := |message| - |tail|;
    && su.Mod(n) == 0
    && message[n..] == tail
    && h == Blocks(su, iv, message[..n])
    && totLen == n % UINT
  }

  /** Data that does not fill the block only lengthens the tail. */
  lemma AbsorbShort<W(!new)>(su: Suite<W>, iv: Regs<W>, message: seq<byte>, tail: seq<byte>, h: Regs<W>,
                             totLen: nat, data: seq<byte>)
    requires su.Valid() && Absorbed(su, iv, message, tail, h, totLen)
    requires |tail| + |data| < su.B()
    ensures Absorbed(su, iv, message + data, tail + data, h, totLen)
  {
    hide Blocks;
    var n := |message| - |tail|;
    assert (message + data)[..n] == message[..n] && (message + data)[n..] == tail + data;
  }

  /** Data that fills the block: the full block, then the whole blocks that follow, are hashed. */
  lemma AbsorbLong<W(!new)>(su: Suite<W>, iv: Regs<W>, message: seq<byte>, tail: seq<byte>, h: Regs<W>,
                            totLen: nat, data: seq<byte>, remLen: nat, blockNb: nat)
    requires su.Valid() && Absorbed(su, iv, message, tail, h, totLen)
    requires |tail| + remLen == su.B() && remLen <= |data|
    requires blockNb == su.Div(|data| - remLen)
    ensures var o := su.Times(blockNb);
            && o + su.Mod(|data| - remLen) == |data| - remLen
            && Absorbed(su, iv, message + data, data[remLen..][o..],
                        Blocks(su, Blocks(su, h, tail + data[..remLen]), data[remLen..][..o]),
                        (totLen + su.Times(blockNb + 1)) % UINT)
  {
    hide Blocks;
    var n, o := |message| - |tail|, su.Times(blockNb);
    WholeBlocks(su, n, |data| - remLen);
    CounterAdds(n, totLen, su.Times(blockNb + 1));
    hide Suite.Times, Suite.Mod, Suite.Div;
    var first, whole := tail + data[..remLen], data[remLen..][..o];
    var m := n + su.B() + o;
    Recut(message, n, data, remLen, o);
    BlocksAppend(su, iv, message[..n], first);
    BlocksAppend(su, iv, message[..n] + first, whole);
  }

  lemma Recut(message: seq<byte>, n: nat, data: seq<byte>, remLen: nat, o: nat)
    requires n <= |message| && remLen + o <= |data|
    ensures var m := |message| + remLen + o;
            && (message + data)[..m] == message[..n] + (message[n..] + data[..remLen]) + data[remLen..][..o]
            && (message + data)[m..] == data[remLen..][o..]
  {
    assert message == message[..n] + message[n..];
  }

  /** Hashing the padded tail finishes the hash of the whole message. */
  lemma AbsorbedFinish<W(!new)>(su: Suite<W>, iv: Regs<W>, message: seq<byte>, tail: seq<byte>, h: Regs<W>,
                                totLen: nat)
    requires su.Valid() && Absorbed(su, iv, message, tail, h, totLen)
    ensures Blocks(su, h, tail + CodePadding(su, |message|)) == CodeHash(su, iv, message)
  {
    hide Blocks, CodePadding;
    var n, p := |message| - |tail|, CodePadding(su, |message|);
    BlocksAppend(su, iv, message[..n], tail + p);
    assert message[..n] + (tail + p) == message + p;
  }

  class Ctx<W(0,!new)> {
    const suite: Suite<W>
    const iv: Regs<W>
    const unrollLoops: bool  // the compile-time switch UNROLL_LOOPS
    var totLen: nat
    var len: nat
    const block: array<byte>
    const h: array<W>
    ghost var message: seq<byte>  // everything absorbed since Init

    ghost predicate Shape()
    {
      suite.Valid() && block.Length == 2 * suite.B() && h.Length == 8
    }

    function H(): Regs<W>
      requires h.Length == 8
      reads h
    {
      InPlace(h[..])
    }

    ghost predicate Valid()
      reads this, block, h
    {
      Shape() && len < suite.B() && Absorbed(suite, iv, message, block[..len], H(), totLen)
    }

    constructor (suite: Suite<W>, iv: Regs<W>, unrollLoops: bool)
      requires suite.Valid()
      ensures Shape() && this.suite == suite && this.iv == iv
      ensures fresh(block) && fresh(h)
    {
      this.suite, this.iv, this.unrollLoops := suite, iv, unrollLoops;
      totLen, len := 0, 0;
      block, h := new byte[2 * suite.B()], new W[8];
      message := [];
    }

    method Init()
      requires Shape()
      modifies this, h
      ensures Valid() && message == []
    {
      h[0], h[1], h[2], h[3], h[4], h[5], h[6], h[7] := iv.a, iv.b, iv.c, iv.d, iv.e, iv.f, iv.g, iv.h;
      len := 0;
      totLen := 0;
      message := [];
      assert block[..len] == [] && message[..0] == [];
    }

    // memcpy of a whole context.
    method CopyFrom(other: Ctx<W>)
      requires Shape() && other.Valid() && other.suite == suite && other.iv == iv
      requires other != this && other.block != block && other.h != h
      modifies this, block, h
      ensures Valid() && message == other.message
    {
      hide Absorbed, InPlace;
      totLen, len, message := other.totLen, other.len, other.message;
      ghost var theirs, state := other.block[..], other.h[..];
      forall i | 0 <= i < block.Length { block[i] := other.block[i]; }
      assert block[..] == theirs && other.h[..] == state;
      forall i | 0 <= i < h.Length { h[i] := other.h[i]; }
      assert h[..] == state && block[..] == theirs;
      assert block[..len] == theirs[..len];
    }

    method MessageSchedule(sub: seq<byte>) returns (w: array<W>)
      requires suite.Valid() && |sub| == suite.B()
      ensures fresh(w) && w.Length == suite.rounds
      ensures IsSchedule(suite, w[..], sub)
    {
      w := new W[suite.rounds];
      for j := 0 to 16
        invariant forall t :: 0 <= t < j ==> w[t] == Schedule(suite, sub, t)
      {
        w[j] := suite.pack(if suite.wide then sub[8 * j..8 * j + 8] else sub[4 * j..4 * j + 4]);
      }
      for j := 16 to suite.rounds
        invariant forall t :: 0 <= t < j ==> w[t] == Schedule(suite, sub, t)
      {
        w[j] := suite.add(suite.add(suite.add(suite.sigma1(w[j - 2]), w[j - 7]), suite.sigma0(w[j - 15])), w[j - 16]);
      }
    }

    method AddToChainingValue(wv: array<W>)
      requires Shape() && wv.Length == 8 && wv != h
      modifies h
      ensures H() == AddRegs(suite, old(H()), InPlace(wv[..]))
    {
      for j := 0 to 8
        invariant forall i :: 0 <= i < j ==> h[i] == suite.add(old(h[i]), wv[i])
        invariant forall i :: j <= i < 8 ==> h[i] == old(h[i])
      {
        h[j] := suite.add(h[j], wv[j]);
      }
    }

    // One pass of the rolled loop: the values move along the working variables.
    method MoveRound(wv: array<W>, k: W, w: W)
      requires wv.Length == 8
      modifies wv
      ensures InPlace(wv[..])
           == Round(suite, old(InPlace(wv[..])), k, w)
    {
      var t1 := suite.add(suite.add(suite.add(suite.add(wv[7], suite.bigSigma1(wv[4])),
                                              suite.ch(wv[4], wv[5], wv[6])), k), w);
      var t2 := suite.add(suite.bigSigma0(wv[0]), suite.maj(wv[0], wv[1], wv[2]));
      wv[7] := wv[6];
      wv[6] := wv[5];
      wv[5] := wv[4];
      wv[4] := suite.add(wv[3], t1);
      wv[3] := wv[2];
      wv[2] := wv[1];
      wv[1] := wv[0];
      wv[0] := suite.add(t1, t2);
    }

    method AllRoundsRolled(wv: array<W>, w: seq<W>, ghost sub: seq<byte>, ghost h0: Regs<W>)
      requires suite.Valid() && wv.Length == 8 && |sub| == suite.B()
      requires IsSchedule(suite, w, sub)
      requires InPlace(wv[..]) == h0
      modifies wv
      ensures InPlace(wv[..]) == Rounds(suite, h0, sub, suite.rounds)
    {
      hide Round, Schedule, InPlace;
      for j := 0 to suite.rounds
        invariant InPlace(wv[..]) == Rounds(suite, h0, sub, j)
      {
        MoveRound(wv, suite.k[j], w[j]);
      }
    }

    // One block, without UNROLL_LOOPS.
    method CompressRolled(sub: seq<byte>)
      requires Shape() && |sub| == suite.B()
      modifies h
      ensures H() == Compress(suite, old(H()), sub)
    {
      hide Rounds;
      var w := MessageSchedule(sub);
      var wv := new W[8];
      forall j | 0 <= j < 8 { wv[j] := h[j]; }
      AllRoundsRolled(wv, w[..], sub, H());
      AddToChainingValue(wv);
    }

    // The macro SHA256_EXP / SHA512_EXP: nothing moves, the next round renames instead.
    method Exp(wv: array<W>, a: nat, b: nat, c: nat, d: nat, e: nat, f: nat, g: nat, hh: nat, k: W, w: W)
      requires wv.Length == 8
      requires a < 8 && b < 8 && c < 8 && d < 8 && e < 8 && f < 8 && g < 8 && hh < 8
      requires d != a && d != b && d != c && d != e && d != f && d != g && d != hh
      requires hh != a && hh != b && hh != c && hh != e && hh != f && hh != g
      modifies wv
      ensures Named(wv[..], hh, a, b, c, d, e, f, g)
           == Round(suite, old(Named(wv[..], a, b, c, d, e, f, g, hh)), k, w)
    {
      var t1 := suite.add(suite.add(suite.add(suite.add(wv[hh], suite.bigSigma1(wv[e])),
                                              suite.ch(wv[e], wv[f], wv[g])), k), w);
      var t2 := suite.add(suite.bigSigma0(wv[a]), suite.maj(wv[a], wv[b], wv[c]));
      wv[d] := suite.add(wv[d], t1);
      wv[hh] := suite.add(t1, t2);
    }

    // The eight renamed rounds of the unrolled body bring every name back to its place.
    method EightRounds(wv: array<W>, w: seq<W>, j: nat, ghost sub: seq<byte>, ghost h0: Regs<W>)
      requires suite.Valid() && wv.Length == 8 && |sub| == suite.B()
      requires j + 8 <= |w| == suite.rounds
      requires IsSchedule(suite, w, sub)
      requires InPlace(wv[..]) == Rounds(suite, h0, sub, j)
      modifies wv
      ensures InPlace(wv[..]) == Rounds(suite, h0, sub, j + 8)
    {
      hide Round, Schedule;
      Exp(wv, 0, 1, 2, 3, 4, 5, 6, 7, suite.k[j], w[j]);
      assert Named(wv[..], 7, 0, 1, 2, 3, 4, 5, 6) == Rounds(suite, h0, sub, j + 1);
      Exp(wv, 7, 0, 1, 2, 3, 4, 5, 6, suite.k[j + 1], w[j + 1]);
      assert Named(wv[..], 6, 7, 0, 1, 2, 3, 4, 5) == Rounds(suite, h0, sub, j + 2);
      Exp(wv, 6, 7, 0, 1, 2, 3, 4, 5, suite.k[j + 2], w[j + 2]);
      assert Named(wv[..], 5, 6, 7, 0, 1, 2, 3, 4) == Rounds(suite, h0, sub, j + 3);
      Exp(wv, 5, 6, 7, 0, 1, 2, 3, 4, suite.k[j + 3], w[j + 3]);
      assert Named(wv[..], 4, 5, 6, 7, 0, 1, 2, 3) == Rounds(suite, h0, sub, j + 4);
      Exp(wv, 4, 5, 6, 7, 0, 1, 2, 3, suite.k[j + 4], w[j + 4]);
      assert Named(wv[..], 3, 4, 5, 6, 7, 0, 1, 2) == Rounds(suite, h0, sub, j + 5);
      Exp(wv, 3, 4, 5, 6, 7, 0, 1, 2, suite.k[j + 5], w[j + 5]);
      assert Named(wv[..], 2, 3, 4, 5, 6, 7, 0, 1) == Rounds(suite, h0, sub, j + 6);
      Exp(wv, 2, 3, 4, 5, 6, 7, 0, 1, suite.k[j + 6], w[j + 6]);
      assert Named(wv[..], 1, 2, 3, 4, 5, 6, 7, 0) == Rounds(suite, h0, sub, j + 7);
      Exp(wv, 1, 2, 3, 4, 5, 6, 7, 0, suite.k[j + 7], w[j + 7]);
      assert InPlace(wv[..]) == Rounds(suite, h0, sub, j + 8);
    }

    method AllRoundsUnrolled(wv: array<W>, w: seq<W>, ghost sub: seq<byte>, ghost h0: Regs<W>)
      requires suite.Valid() && wv.Length == 8 && |sub| == suite.B()
      requires IsSchedule(suite, w, sub)
      requires InPlace(wv[..]) == h0
      modifies wv
      ensures InPlace(wv[..]) == Rounds(suite, h0, sub, suite.rounds)
    {
      assert Rounds(suite, h0, sub, 0) == h0;
      assert |w| == suite.rounds;
      WholeOctets(suite.rounds);
      hide Rounds, IsSchedule, InPlace;
      for o := 0 to suite.rounds / 8
        invariant InPlace(wv[..]) == Rounds(suite, h0, sub, 8 * o)
      {
        EightRounds(wv, w, 8 * o, sub, h0);
      }
    }

    // One block, with UNROLL_LOOPS.
    method CompressUnrolled(sub: seq<byte>)
      requires Shape() && |sub| == suite.B()
      modifies h
      ensures H() == Compress(suite, old(H()), sub)
    {
      hide Rounds;
      var w := MessageSchedule(sub);
      var wv := new W[8];
      forall j | 0 <= j < 8 { wv[j] := h[j]; }
      AllRoundsUnrolled(wv, w[..], sub, H());
      AddToChainingValue(wv);
    }

    // sha256_transf: the first blockNb blocks of data.
    method Transf(data: seq<byte>, blockNb: nat)
      requires Shape() && suite.Times(blockNb) <= |data|
      modifies h
      ensures H() == Blocks(suite, old(H()), data[..suite.Times(blockNb)])
    {
      for i := 0 to blockNb
        invariant H() == Blocks(suite, old(H()), data[..suite.Times(i)])
      {
        var o := suite.Times(i);
        var sub := data[o..o + suite.B()];
        BlocksSnoc(suite, old(H()), data, i);
        if unrollLoops {
          CompressUnrolled(sub);
        } else {
          CompressRolled(sub);
        }
      }
    }

    method CopyIntoBlock(at: nat, data: seq<byte>)
      requires at + |data| <= block.Length
      modifies block
      ensures block[..] == old(block[..at]) + data + old(block[at + |data|..])
    {
      forall i | 0 <= i < |data| { block[at + i] := data[i]; }
    }

    // sha256_update; the sum of the buffered length and the new length must fit unsigned int.
    method Update(data: seq<byte>)
      requires Valid() && len + |data| < UINT
      modifies this, block, h
      ensures Valid() && message == old(message) + data
    {
      hide Absorbed, Blocks, Suite.Mod, Suite.Div, Suite.Times;
      ghost var tail := block[..len];
      var tmpLen := suite.B() - len;
      var remLen := if |data| < tmpLen then |data| else tmpLen;
      CopyIntoBlock(len, data[..remLen]);
      ghost var m := message;
      message := message + data;
      if len + |data| < suite.B() {
        AbsorbShort(suite, iv, m, tail, H(), totLen, data);
        len := len + |data|;
        assert block[..len] == tail + data;
        return;
      }
      var newLen := |data| - remLen;
      var blockNb := suite.Div(newLen);
      var shifted := data[remLen..];
      var o := suite.Times(blockNb);
      AbsorbLong(suite, iv, m, tail, H(), totLen, data, remLen, blockNb);
      HashBuffered(tail + data[..remLen]);
      Transf(shifted, blockNb);
      remLen := suite.Mod(newLen);
      CopyIntoBlock(0, shifted[o..o + remLen]);
      len := remLen;
      totLen := (totLen + suite.Times(blockNb + 1)) % UINT;
      assert block[..len] == shifted[o..];
    }

    // sha256_transf on the one block in the buffer.
    method HashBuffered(ghost data: seq<byte>)
      requires Shape() && block[..suite.B()] == data
      modifies h
      ensures H() == Blocks(suite, old(H()), data)
    {
      hide Blocks;
      assert block[..][..suite.Times(1)] == data;
      Transf(block[..], 1);
    }

    // The padding that sha256_final adds to the tail in the block buffer.
    method PadBlock(pmLen: nat, lenB: nat)
      requires len + 5 <= pmLen <= block.Length && lenB < UINT
      modifies block
      ensures block[..pmLen] == old(block[..len]) + ([0x80] + Zeros(pmLen - 5 - len) + UnpackLength(lenB))
    {
      hide UnpackLength;
      ghost var tail := block[..len];
      CopyIntoBlock(len, Zeros(pmLen - len));
      block[len] := 0x80;
      assert block[..pmLen - 4] == tail + [0x80] + Zeros(pmLen - 5 - len);
      CopyIntoBlock(pmLen - 4, UnpackLength(lenB));
    }

    // The number of blocks that sha256_final hashes, and the bit length it stores.
    method FinalSizes() returns (blockNb: nat, lenB: nat)
      requires Valid()
      ensures lenB < UINT && len + 5 <= suite.Times(blockNb) <= block.Length
      ensures CodePadding(suite, |message|)
           == [0x80] + Zeros(suite.Times(blockNb) - 5 - len) + UnpackLength(lenB)
    {
      hide Blocks, CodePadding;
      blockNb := 1 + (if suite.B() - 1 - suite.LengthField() < suite.Mod(len) then 1 else 0);
      lenB := (totLen + len) % UINT * 8 % UINT;
      PaddingFits(suite, |message| - len, len, totLen, blockNb);
    }

    // sha256_final. The context is spent afterwards.
    method Final() returns (digest: seq<byte>)
      requires Valid()
      modifies this, block, h
      ensures Shape()
      ensures digest == CodeDigest(suite, iv, old(message))
    {
      hide Blocks, CodePadding, Absorbed, Suite.Mod, Suite.Times, UnpackLength;
      ghost var tail := block[..len];
      AbsorbedFinish(suite, iv, message, tail, H(), totLen);
      var blockNb, lenB := FinalSizes();
      var pmLen := suite.Times(blockNb);
      PadBlock(pmLen, lenB);
      assert block[..][..pmLen] == tail + CodePadding(suite, |message|);
      Transf(block[..], blockNb);
      digest := suite.unpack(h[0]) + suite.unpack(h[1]) + suite.unpack(h[2]) + suite.unpack(h[3])
              + suite.unpack(h[4]) + suite.unpack(h[5]) + suite.unpack(h[6]) + suite.unpack(h[7]);
    }
  }

  /** init, one update per piece, final: the digest of the concatenation, however it was cut. */
  method HashInPieces<W(0,!new)>(su: Suite<W>, iv: Regs<W>, unrollLoops: bool, pieces: seq<seq<byte>>)
    returns (digest: seq<byte>)
    requires su.Valid() && forall p <- pieces :: |p| + su.B() <= UINT
    ensures digest == CodeDigest(su, iv, Flatten(pieces))
    ensures |Flatten(pieces)| < 0x2000_0000 ==> digest == Digest(su, iv, Flatten(pieces))
  {
    hide CodeDigest, Digest, Absorbed, Blocks;
    var ctx := new Ctx<W>(su, iv, unrollLoops);
    ctx.Init();
    for i := 0 to |pieces|
      invariant ctx.Valid() && ctx.suite == su && ctx.iv == iv
      invariant fresh(ctx) && fresh(ctx.block) && fresh(ctx.h)
      invariant ctx.message == Flatten(pieces[..i])
    {
      assert pieces[..i + 1] == pieces[..i] + [pieces[i]];
      FlattenSnoc(pieces[..i], pieces[i]);
      ctx.Update(pieces[i]);
    }
    assert pieces[..|pieces|] == pieces;
    digest := ctx.Final();
    if |Flatten(pieces)| < 0x2000_0000 {
      CodeDigestIsStandard(su, iv, Flatten(pieces));
    }
  }

  /** The block count and the two counters of the final function describe CodePadding. */
  lemma PaddingFits<W(!new)>(su: Suite<W>, n: nat, len: nat, totLen: nat, blockNb: nat)
    requires len < su.B() && su.Mod(n) == 0 && totLen == n % UINT
    requires blockNb == 1 + (if su.B() - 1 - su.LengthField() < su.Mod(len) then 1 else 0)
    ensures len + 5 <= su.Times(blockNb) <= 2 * su.B()
    ensures CodePadding(su, n + len)
         == [0x80] + Zeros(su.Times(blockNb) - 5 - len) + UnpackLength((totLen + len) % UINT * 8 % UINT)
  {
    hide BigEndian, ZeroCount;
    FinalBlocks(su, n + len, len, blockNb);
    BitLength(n, len, totLen);
  }

  lemma WholeBlocks<W(!new)>(su: Suite<W>, n: nat, newLen: nat)
    requires su.Mod(n) == 0
    ensures su.Times(su.Div(newLen)) + su.Mod(newLen) == newLen
    ensures su.Mod(n + su.B() + su.Times(su.Div(newLen))) == 0
    ensures su.Times(su.Div(newLen) + 1) == su.B() + su.Times(su.Div(newLen))
    ensures su.Mod(su.B()) == 0 && su.Mod(n + su.B()) == 0
  {
    if su.wide {
      Whole128(n, newLen);
    } else {
      Whole64(n, newLen);
    }
  }

  lemma Whole64(n: nat, newLen: nat)
    requires n % 64 == 0
    ensures newLen / 64 * 64 + newLen % 64 == newLen
    ensures (n + 64 + newLen / 64 * 64) % 64 == 0 && (n + 64) % 64 == 0
  {
    var q, d := n / 64, newLen / 64;
    assert n == 64 * q;
    assert n + 64 == 64 * (q + 1) && n + 64 + d * 64 == 64 * (q + 1 + d);
  }

  lemma Whole128(n: nat, newLen: nat)
    requires n % 128 == 0
    ensures newLen / 128 * 128 + newLen % 128 == newLen
    ensures (n + 128 + newLen / 128 * 128) % 128 == 0 && (n + 128) % 128 == 0
  {
    var q, d := n / 128, newLen / 128;
    assert n == 128 * q;
    assert n + 128 == 128 * (q + 1) && n + 128 + d * 128 == 128 * (q + 1 + d);
  }

  // The macro UNPACK32 on a length.
  function UnpackLength(x: nat): (s: seq<byte>)
    requires x < UINT
    ensures s == BigEndian(x, 4) && Worth(s) == x
  {
    hide ToByte, Worth, BigEndian;
    FourBytes(x);
    WorthOfWord(x);
    [ToByte(x / 0x100_0000), ToByte(x / 0x1_0000 % 256), ToByte(x / 0x100 % 256), ToByte(x % 256)]
  }

  lemma FourBytes(x: nat)
    requires x < UINT
    ensures BigEndian(x, 4)
         == [ToByte(x / 0x100_0000), ToByte(x / 0x1_0000 % 256), ToByte(x / 0x100 % 256), ToByte(x % 256)]
  {
    hide ToByte, BigEndian;
    LowTwo(x, 4);
    TwoBytes(x / 0x1_0000);
    TwoBytes(x % 0x1_0000);
    Halves(x);
  }

  lemma Halves(x: nat)
    ensures x / 0x1_0000 / 0x100 == x / 0x100_0000
    ensures x % 0x1_0000 / 0x100 == x / 0x100 % 256 && x % 0x1_0000 % 256 == x % 256
  {
  }

  lemma TwoBytes(x: nat)
    requires x < 0x1_0000
    ensures BigEndian(x, 2) == [ToByte(x / 0x100), ToByte(x % 256)]
  {
    hide ToByte;
    assert BigEndian(x, 2) == BigEndian(x / 256, 1) + [ToByte(x % 256)];
    assert BigEndian(x / 256, 1) == [ToByte(x / 256)];
  }

  lemma WorthOfWord(x: nat)
    requires x < UINT
    ensures Worth(BigEndian(x, 4)) == x
  {
    hide BigEndian, Worth;
    WorthBigEndian(x, 4);
    assert Pow256(2) == 0x1_0000 && Pow256(4) == 0x1_0000 * Pow256(2);
    ModSmall(x, UINT);
  }

  lemma BlocksSnoc<W(!new)>(su: Suite<W>, h: Regs<W>, data: seq<byte>, i: nat)
    requires su.Valid() && su.Times(i + 1) <= |data|
    ensures Blocks(su, h, data[..su.Times(i + 1)])
         == Compress(su, Blocks(su, h, data[..su.Times(i)]), data[su.Times(i)..su.Times(i) + su.B()])
  {
    var o := su.Times(i);
    assert data[..su.Times(i + 1)] == data[..o] + data[o..o + su.B()];
    BlocksAppend(su, h, data[..o], data[o..o + su.B()]);
    OneBlock(su, Blocks(su, h, data[..o]), data[o..o + su.B()]);
  }

  /** The final function pads to the next block boundary that leaves room for the length. */
  lemma FinalBlocks<W(!new)>(su: Suite<W>, total: nat, len: nat, blockNb: nat)
    requires len < su.B() && len <= total && su.Mod(total - len) == 0
    requires blockNb == 1 + (if su.B() - 1 - su.LengthField() < su.Mod(len) then 1 else 0)
    ensures su.Times(blockNb) == len + 1 + ZeroCount(su, total) + su.LengthField()
  {
    hide UpTo64, UpTo128;
    ModSmall(len, 64 * (if su.wide then 2 else 1));
    if su.wide {
      Room128(total, len);
    } else {
      Room64(total, len);
    }
  }

  lemma Room64(total: nat, len: nat)
    requires len < 64 && len <= total && (total - len) % 64 == 0
    ensures UpTo64(total + 9) == if len <= 55 then 55 - len else 119 - len
  {
    assert (total + 9) % 64 == (len + 9) % 64;
  }

  lemma Room128(total: nat, len: nat)
    requires len < 128 && len <= total && (total - len) % 128 == 0
    ensures UpTo128(total + 17) == if len <= 111 then 111 - len else 239 - len
  {
    assert (total + 17) % 128 == (len + 17) % 128;
  }

  lemma CounterAdds(n: nat, totLen: nat, k: nat)
    requires totLen == n % UINT
    ensures (totLen + k) % UINT == (n + k) % UINT
  {
  }

  lemma BitLength(n: nat, len: nat, totLen: nat)
    requires totLen == n % UINT
    ensures (totLen + len) % UINT * 8 % UINT == 8 * (n + len) % UINT
  {
    assert n == UINT * (n / UINT) + totLen;
    var x, y := totLen + len, n / UINT;
    assert 8 * (n + len) == 8 * x + UINT * (8 * y);
    assert x == UINT * (x / UINT) + x % UINT;
    assert 8 * x == (x % UINT) * 8 + UINT * (8 * (x / UINT));
  }
}
