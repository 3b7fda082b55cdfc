/** The SHA-2 hash as FIPS 180-2 defines it, for any member of the family.

  A Suite carries what differs between the members: word size, number of rounds, round
  constants and the word operations. Everything here is a specification: the code of
  hmac/sha2.c and sha256.c is proved against it in other modules. */
module Fips180 {
  import opened Bytes

  datatype Suite<!W(!new)> = Suite(
    wide: bool,
    rounds: nat,
    k: seq<W>,
    add: (W, W) -> W,
    bigSigma0: W -> W,
    bigSigma1: W -> W,
    sigma0: W -> W,
    sigma1: W -> W,
    ch: (W, W, W) -> W,
    maj: (W, W, W) -> W,
    pack: seq<byte> -> W,
    unpack: W -> seq<byte>)
  {
    ghost predicate Valid() {
      && rounds >= 16 && rounds % 8 == 0
      && |k| == rounds
      && forall w :: |unpack(w)| == WordBytes()
    }

    // Words are 32 bits in SHA-224 and SHA-256 and 64 bits in SHA-384 and SHA-512.
    function WordBytes(): nat { if wide then 8 else 4 }

    // Bytes in one message block.
    function B(): nat { if wide then 128 else 64 }

    // Bytes in the length field that ends the padding (section 5.1).
    function LengthField(): nat { if wide then 16 else 8 }

    function Mod(n: nat): (m: nat)
      ensures m < B()
    {
      if wide then n % 128 else n % 64
    }

    // Bytes in n blocks.
    function Times(n: nat): nat { if wide then 128 * n else 64 * n }

    // Whole blocks in n bytes.
    function Div(n: nat): nat { if wide then n / 128 else n / 64 }
  }

  // The working variables a..h, and the chaining value H0..H7.
  datatype Regs<W> = Regs(a: W, b: W, c: W, d: W, e: W, f: W, g: W, h: W)

  // Section 6.2.2 step 1: the t-th word of the message schedule of a block.
  function Schedule<W(!new)>(su: Suite<W>, block: seq<byte>, t: nat): W
    requires |block| == su.B()
  {
    if t < 16 then
      su.pack(if su.wide then block[8 * t..8 * t + 8] else block[4 * t..4 * t + 4])
    else
      su.add(su.add(su.add(su.sigma1(Schedule(su, block, t - 2)), Schedule(su, block, t - 7)),
                    su.sigma0(Schedule(su, block, t - 15))),
             Schedule(su, block, t - 16))
  }

  // Section 6.2.2 step 3: one round.
  function T1<W(!new)>(su: Suite<W>, r: Regs<W>, k: W, w: W): W {
    su.add(su.add(su.add(su.add(r.h, su.bigSigma1(r.e)), su.ch(r.e, r.f, r.g)), k), w)
  }

  function T2<W(!new)>(su: Suite<W>, r: Regs<W>): W {
    su.add(su.bigSigma0(r.a), su.maj(r.a, r.b, r.c))
  }

  function Round<W(!new)>(su: Suite<W>, r: Regs<W>, k: W, w: W): Regs<W> {
    Regs(su.add(T1(su, r, k, w), T2(su, r)), r.a, r.b, r.c, su.add(r.d, T1(su, r, k, w)), r.e, r.f, r.g)
  }

  function Rounds<W(!new)>(su: Suite<W>, r: Regs<W>, block: seq<byte>, t: nat): Regs<W>
    requires |block| == su.B() && t <= |su.k|
  {
    if t == 0 then r else Round(su, Rounds(su, r, block, t - 1), su.k[t - 1], Schedule(su, block, t - 1))
  }

  function AddRegs<W(!new)>(su: Suite<W>, x: Regs<W>, y: Regs<W>): Regs<W> {
    Regs(su.add(x.a, y.a), su.add(x.b, y.b), su.add(x.c, y.c), su.add(x.d, y.d),
         su.add(x.e, y.e), su.add(x.f, y.f), su.add(x.g, y.g), su.add(x.h, y.h))
  }

  // Section 6.2.2: the chaining value after one block.
  function Compress<W(!new)>(su: Suite<W>, h: Regs<W>, block: seq<byte>): Regs<W>
    requires |block| == su.B() && su.rounds == |su.k|
  {
    AddRegs(su, h, Rounds(su, h, block, su.rounds))
  }

  // The chaining value after all whole blocks of data.
  ghost function Blocks<W(!new)>(su: Suite<W>, h: Regs<W>, data: seq<byte>): Regs<W>
    requires su.Valid()
    decreases |data|
  {
    if |data| < su.B() then h else Blocks(su, Compress(su, h, data[..su.B()]), data[su.B()..])
  }

  // Section 5.1: zero bytes between the 0x80 byte and the length field.
  function ZeroCount<W(!new)>(su: Suite<W>, n: nat): (z: nat)
    ensures z < su.B()
    ensures su.Mod(n + 1 + z + su.LengthField()) == 0
  {
    if su.wide then UpTo128(n + 17) else UpTo64(n + 9)
  }

  // The distance from x up to the next multiple of 64 (of 128).
  function UpTo64(x: nat): (z: nat)
    ensures z < 64 && (x + z) % 64 == 0
  {
    (64 - x % 64) % 64
  }

  function UpTo128(x: nat): (z: nat)
    ensures z < 128 && (x + z) % 128 == 0
  {
    (128 - x % 128) % 128
  }

  function Padding<W(!new)>(su: Suite<W>, n: nat): seq<byte>
  {
    [0x80] + Zeros(ZeroCount(su, n)) + BigEndian(8 * n, su.LengthField())
  }

  // Section 6.2: the chaining value after the padded message.
  ghost function Hash<W(!new)>(su: Suite<W>, iv: Regs<W>, message: seq<byte>): Regs<W>
    requires su.Valid()
  {
    Blocks(su, iv, message + Padding(su, |message|))
  }

  function DigestBytes<W(!new)>(su: Suite<W>, h: Regs<W>): seq<byte> {
    su.unpack(h.a) + su.unpack(h.b) + su.unpack(h.c) + su.unpack(h.d) +
    su.unpack(h.e) + su.unpack(h.f) + su.unpack(h.g) + su.unpack(h.h)
  }

  // The digest of a message, for a suite and its initial hash value.
  ghost function Digest<W(!new)>(su: Suite<W>, iv: Regs<W>, message: seq<byte>): seq<byte>
    requires su.Valid()
  {
    DigestBytes(su, Hash(su, iv, message))
  }

  /** Hashing whole blocks first and the rest after is hashing everything. */
  lemma {:induction false} BlocksAppend<W(!new)>(su: Suite<W>, h: Regs<W>, x: seq<byte>, y: seq<byte>)
    requires su.Valid() && su.Mod(|x|) == 0
    ensures Blocks(su, h, x + y) == Blocks(su, Blocks(su, h, x), y)
    decreases |x|
  {
    if |x| < su.B() {
      assert x == [];
      assert x + y == y;
    } else {
      var b := su.B();
      assert (x + y)[..b] == x[..b] && (x + y)[b..] == x[b..] + y;
      assert su.Mod(|x| - b) == 0;
      BlocksAppend(su, Compress(su, h, x[..b]), x[b..], y);
    }
  }

  lemma OneBlock<W(!new)>(su: Suite<W>, h: Regs<W>, block: seq<byte>)
    requires su.Valid() && |block| == su.B()
    ensures Blocks(su, h, block) == Compress(su, h, block)
  {
    assert block[..su.B()] == block && block[su.B()..] == [];
    assert Blocks(su, Compress(su, h, block), []) == Compress(su, h, block);
  }
}
