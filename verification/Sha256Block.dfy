/** The second SHA-256 of the firmware, sha256.c: one block, over global buffers. */
module Sha256Block {
  import opened Bytes
  import opened Fips180
  import opened Sha2
  import opened Sha2Suites

  // Rotate_right of sha256.c, with a mask one bit wider than the bits rotated in.
  function RotateRight(number: bv32, bits: bv32): bv32
    requires 0 < bits < 32
  {
    var bitMask := ((2 as bv32) << bits) - 1;
    (number >> bits) | ((number & bitMask) << (32 - bits))
  }

  lemma EachRotation(x: bv32)
    ensures RotateRight(x, 1) == Rotr32(x, 1) && RotateRight(x, 2) == Rotr32(x, 2)
    ensures RotateRight(x, 3) == Rotr32(x, 3) && RotateRight(x, 4) == Rotr32(x, 4)
    ensures RotateRight(x, 5) == Rotr32(x, 5) && RotateRight(x, 6) == Rotr32(x, 6)
    ensures RotateRight(x, 7) == Rotr32(x, 7) && RotateRight(x, 8) == Rotr32(x, 8)
    ensures RotateRight(x, 9) == Rotr32(x, 9) && RotateRight(x, 10) == Rotr32(x, 10)
    ensures RotateRight(x, 11) == Rotr32(x, 11) && RotateRight(x, 12) == Rotr32(x, 12)
    ensures RotateRight(x, 13) == Rotr32(x, 13) && RotateRight(x, 14) == Rotr32(x, 14)
    ensures RotateRight(x, 15) == Rotr32(x, 15) && RotateRight(x, 16) == Rotr32(x, 16)
    ensures RotateRight(x, 17) == Rotr32(x, 17) && RotateRight(x, 18) == Rotr32(x, 18)
    ensures RotateRight(x, 19) == Rotr32(x, 19) && RotateRight(x, 20) == Rotr32(x, 20)
    ensures RotateRight(x, 21) == Rotr32(x, 21) && RotateRight(x, 22) == Rotr32(x, 22)
    ensures RotateRight(x, 23) == Rotr32(x, 23) && RotateRight(x, 24) == Rotr32(x, 24)
    ensures RotateRight(x, 25) == Rotr32(x, 25) && RotateRight(x, 26) == Rotr32(x, 26)
    ensures RotateRight(x, 27) == Rotr32(x, 27) && RotateRight(x, 28) == Rotr32(x, 28)
    ensures RotateRight(x, 29) == Rotr32(x, 29) && RotateRight(x, 30) == Rotr32(x, 30)
    ensures RotateRight(x, 31) == Rotr32(x, 31)
  {
  }

  /** The extra bit of the mask is shifted out again: this is the 32-bit rotation. */
  lemma RotateRightIsRotation(number: bv32, bits: bv32)
    requires 0 < bits < 32
    ensures RotateRight(number, bits) == Rotr32(number, bits)
  {
    hide *;
    EachRotation(number);
  }

  // The bytes of a sequence of big-endian words.
  function WordBytes(words: seq<bv32>): (s: seq<byte>)
    ensures |s| == 4 * |words|
  {
    if words == [] then [] else WordBytes(words[..|words| - 1]) + Unpack32(words[|words| - 1])
  }

  const INITIAL_HASH: seq<bv32> :=
    [0x6a09_e667, 0xbb67_ae85, 0x3c6e_f372, 0xa54f_f53a, 0x510e_527f, 0x9b05_688c, 0x1f83_d9ab, 0x5be0_cd19]

  const HASH_CONSTANT: seq<bv32> :=
    [0x428a_2f98, 0x7137_4491, 0xb5c0_fbcf, 0xe9b5_dba5, 0x3956_c25b, 0x59f1_11f1, 0x923f_82a4, 0xab1c_5ed5,
     0xd807_aa98, 0x1283_5b01, 0x2431_85be, 0x550c_7dc3, 0x72be_5d74, 0x80de_b1fe, 0x9bdc_06a7, 0xc19b_f174] +
    [0xe49b_69c1, 0xefbe_4786, 0x0fc1_9dc6, 0x240c_a1cc, 0x2de9_2c6f, 0x4a74_84aa, 0x5cb0_a9dc, 0x76f9_88da,
     0x983e_5152, 0xa831_c66d, 0xb003_27c8, 0xbf59_7fc7, 0xc6e0_0bf3, 0xd5a7_9147, 0x06ca_6351, 0x1429_2967] +
    [0x27b7_0a85, 0x2e1b_2138, 0x4d2c_6dfc, 0x5338_0d13, 0x650a_7354, 0x766a_0abb, 0x81c2_c92e, 0x9272_2c85,
     0xa2bf_e8a1, 0xa81a_664b, 0xc24b_8b70, 0xc76c_51a3, 0xd192_e819, 0xd699_0624, 0xf40e_3585, 0x106a_a070] +
    [0x19a4_c116, 0x1e37_6c08, 0x2748_774c, 0x34b0_bcb5, 0x391c_0cb3, 0x4ed8_aa4a, 0x5b9c_ca4f, 0x682e_6ff3,
     0x748f_82ee, 0x78a5_636f, 0x84c8_7814, 0x8cc7_0208, 0x90be_fffa, 0xa450_6ceb, 0xbef9_a3f7, 0xc671_78f2]

  // sha256.c repeats the tables of hmac/sha2.c.
  lemma SameTables()
    ensures HASH_CONSTANT == K256
    ensures |INITIAL_HASH| == 8 && InPlace(INITIAL_HASH) == H256
  {
  }

  // What PadtheMessage leaves after a message of n words: the length word is stored last, and at
  // n == 15 it takes the place of the 0x80 byte.
  function PaddedBlock(input: seq<bv32>): (s: seq<byte>)
    requires |input| <= 15
    ensures |s| == 64
  {
    PadTail(WordBytes(input))
  }

  function PadTail(m: seq<byte>): (s: seq<byte>)
    requires |m| <= 60
    ensures |s| == 64
  {
    (if |m| <= 59 then m + [0x80] + Zeros(59 - |m|) else m) + BigEndian(8 * |m|, 4)
  }

  /** The block is the padded message of FIPS 180-2 section 5.1.1 exactly for 13 words or fewer. */
  lemma PaddedBlockIsStandard(input: seq<bv32>)
    requires |input| <= 15
    ensures PaddedBlock(input) == WordBytes(input) + Padding(SHA256, 4 * |input|) <==> |input| <= 13
  {
    hide *;
    if |input| <= 13 {
      ShortBlock(input);
    } else {
      LongBlock(input);
    }
  }

  lemma ShortBlock(input: seq<bv32>)
    requires |input| <= 13
    ensures PaddedBlock(input) == WordBytes(input) + Padding(SHA256, 4 * |input|)
  {
    hide *;
    PaddedBlockIs(input);
    OneBlockPadding(|input|);
    ShortTail(WordBytes(input));
  }

  lemma PaddedBlockIs(input: seq<bv32>)
    requires |input| <= 15
    ensures PaddedBlock(input) == PadTail(WordBytes(input))
  {
    hide PadTail;
  }

  lemma LongBlock(input: seq<bv32>)
    requires 14 <= |input| <= 15
    ensures PaddedBlock(input) != WordBytes(input) + Padding(SHA256, 4 * |input|)
  {
    hide BigEndian, WordBytes, Padding, PaddedBlock, Zeros;
    OneBlockPadding(|input|);
  }

  lemma ShortTail(m: seq<byte>)
    requires |m| <= 59
    ensures PadTail(m) == m + ([0x80] + Zeros(59 - |m|) + BigEndian(8 * |m|, 4))
  {
    hide BigEndian, Zeros;
  }

  lemma OneBlockPadding(words: nat)
    requires words <= 15
    ensures |Padding(SHA256, 4 * words)| == if words <= 13 then 64 - 4 * words else 128 - 4 * words
    ensures words <= 13 ==> Padding(SHA256, 4 * words) == [0x80] + Zeros(59 - 4 * words) + BigEndian(8 * (4 * words), 4)
  {
    var n := 4 * words;
    BlockRoom(words);
    ShortLength(8 * n);
    hide BigEndian, ZeroCount;
    if words <= 13 {
      assert Zeros(55 - n) + Zeros(4) == Zeros(59 - n);
    }
  }

  lemma BlockRoom(words: nat)
    requires words <= 15
    ensures ZeroCount(SHA256, 4 * words) == if words <= 13 then 55 - 4 * words else 119 - 4 * words
  {
  }

  lemma ShortLength(v: nat)
    requires v < 0x1_0000_0000
    ensures BigEndian(v, 8) == Zeros(4) + BigEndian(v, 4)
  {
    BigEndianSplit(v, 8);
    BigEndianZero(0, 4);
    hide BigEndian;
  }

  // The state kept in the globals Padded_Message, Message_Schedule_W and chunk.
  class HashGlobals {
    const paddedMessage: array<byte>
    const messageScheduleW: array<bv32>
    const chunk: array<bv32>  // the fields a..h, also reached as chunk_ptr[0..8]

    ghost predicate Valid() {
      paddedMessage.Length == 64 && messageScheduleW.Length == 64 && chunk.Length == 8
      && messageScheduleW != chunk
    }

    constructor ()
      ensures Valid() && fresh(paddedMessage) && fresh(messageScheduleW) && fresh(chunk)
    {
      paddedMessage := new byte[64](_ => 0);
      messageScheduleW := new bv32[64](_ => 0);
      chunk := new bv32[8];
    }

    // A word store through a pointer into Padded_Message.
    method StoreWord(i: nat, word: seq<byte>)
      requires Valid() && i < 16 && |word| == 4
      modifies paddedMessage
      ensures paddedMessage[..] == old(paddedMessage[..4 * i]) + word + old(paddedMessage[4 * i + 4..])
    {
      var o := 4 * i;
      paddedMessage[o], paddedMessage[o + 1], paddedMessage[o + 2], paddedMessage[o + 3] :=
        word[0], word[1], word[2], word[3];
    }

    // PadtheMessage; the message length is in bytes.
    method PadTheMessage(messageLength: nat)
      requires Valid() && messageLength <= 60
      modifies paddedMessage
      ensures paddedMessage[..] == PadTail(old(paddedMessage[..messageLength]))
    {
      ghost var m := paddedMessage[..messageLength];
      var messageLengthBits := 8 * messageLength;
      paddedMessage[messageLength] := 0x80;
      for i := messageLength + 1 to 64
        invariant paddedMessage[..i] == m + [0x80] + Zeros(i - messageLength - 1)
      {
        paddedMessage[i] := 0x00;
      }
      hide BigEndian, UnpackLength;
      assert paddedMessage[..60] == if messageLength <= 59 then m + [0x80] + Zeros(59 - messageLength) else m;
      StoreWord(15, UnpackLength(messageLengthBits));
    }

    method LoadMessage(input: seq<bv32>)
      requires Valid() && |input| <= 15
      modifies paddedMessage
      ensures paddedMessage[..] == PaddedBlock(input)
    {
      hide Unpack32;
      for i := 0 to |input|
        invariant paddedMessage[..4 * i] == WordBytes(input[..i])
      {
        assert input[..i + 1][..i] == input[..i];
        StoreWord(i, Unpack32(input[i]));
        assert paddedMessage[..4 * (i + 1)] == WordBytes(input[..i + 1]);
      }
      assert input[..|input|] == input;
      hide BigEndian, WordBytes;
      PadTheMessage(4 * |input|);
    }

    // The two loops over Message_Schedule_W.
    method FillSchedule(ghost block: seq<byte>)
      requires Valid() && paddedMessage[..] == block
      modifies messageScheduleW
      ensures IsSchedule(SHA256, messageScheduleW[..], block)
    {
      hide Pack32, NextWord, Schedule;
      for i := 0 to 16
        invariant forall t :: 0 <= t < i ==> messageScheduleW[t] == Schedule(SHA256, block, t)
      {
        ScheduleLoad(block, i);
        messageScheduleW[i] := Pack32(paddedMessage[4 * i..4 * i + 4]);
      }
      for i := 16 to 64
        invariant forall t :: 0 <= t < i ==> messageScheduleW[t] == Schedule(SHA256, block, t)
      {
        ScheduleStep(block, i);
        messageScheduleW[i] := NextWord(messageScheduleW[i - 16], messageScheduleW[i - 15],
                                        messageScheduleW[i - 7], messageScheduleW[i - 2]);
      }
    }

    // One pass of the main loop of calculate_hash.
    method ChunkRound(k: bv32, w: bv32)
      requires Valid()
      modifies chunk
      ensures InPlace(chunk[..]) == Round(SHA256, old(InPlace(chunk[..])), k, w)
    {
      hide Add32, BigSigma0x32, BigSigma1x32, Ch32, Maj32, CodeSigma0, CodeSigma1, CodeCh, CodeMaj, Round;
      RoundMeaning(InPlace(chunk[..]), k, w);
      var t2 := Add32(CodeSigma0(chunk[0]), CodeMaj(chunk[0], chunk[1], chunk[2]));
      var t1 := Add32(Add32(Add32(Add32(chunk[7], CodeSigma1(chunk[4])), CodeCh(chunk[4], chunk[5], chunk[6])), k), w);
      chunk[7] := chunk[6];
      chunk[6] := chunk[5];
      chunk[5] := chunk[4];
      chunk[4] := Add32(chunk[3], t1);
      chunk[3] := chunk[2];
      chunk[2] := chunk[1];
      chunk[1] := chunk[0];
      chunk[0] := Add32(t1, t2);
    }

    method AllRounds(ghost block: seq<byte>)
      requires Valid() && IsSchedule(SHA256, messageScheduleW[..], block)
      modifies chunk
      ensures InPlace(chunk[..]) == Rounds(SHA256, H256, block, 64)
    {
      SameTables();
      hide Round, Schedule, InPlace;
      for i := 0 to 8
        invariant forall t :: 0 <= t < i ==> chunk[t] == INITIAL_HASH[t]
      {
        chunk[i] := INITIAL_HASH[i];
      }
      assert chunk[..] == INITIAL_HASH;
      for i := 0 to 64
        invariant InPlace(chunk[..]) == Rounds(SHA256, H256, block, i)
      {
        ChunkRound(HASH_CONSTANT[i], messageScheduleW[i]);
      }
    }

    // calculate_hash, for inputs that stay inside Padded_Message.
    method CalculateHash(input: seq<bv32>) returns (output: seq<bv32>)
      requires Valid() && |input| <= 15
      modifies paddedMessage, messageScheduleW, chunk
      ensures |output| == 8 && InPlace(output) == Compress(SHA256, H256, PaddedBlock(input))
      ensures |input| <= 13 ==> DigestBytes(SHA256, InPlace(output)) == Digest(SHA256, H256, WordBytes(input))
    {
      hide PaddedBlock, IsSchedule, Rounds, WordBytes, Digest, Add32;
      LoadMessage(input);
      FillSchedule(PaddedBlock(input));
      AllRounds(PaddedBlock(input));
      SameTables();
      output := [];
      for i := 0 to 8
        invariant |output| == i
        invariant forall t :: 0 <= t < i ==> output[t] == Add32(INITIAL_HASH[t], chunk[t])
      {
        output := output + [Add32(INITIAL_HASH[i], chunk[i])];
      }
      if |input| <= 13 {
        SingleBlockDigest(input, output);
      }
    }
  }

  /** One padded block, compressed, is the whole hash. */
  lemma SingleBlockDigest(input: seq<bv32>, output: seq<bv32>)
    requires |input| <= 13 && |output| == 8
    requires InPlace(output) == Compress(SHA256, H256, PaddedBlock(input))
    ensures DigestBytes(SHA256, InPlace(output)) == Digest(SHA256, H256, WordBytes(input))
  {
    SuitesValid();
    DigestIs(WordBytes(input));
    hide *;
    ShortBlock(input);
    OneBlock(SHA256, H256, PaddedBlock(input));
  }

  lemma DigestIs(message: seq<byte>)
    ensures SHA256.Valid() && SHA256.B() == 64
    ensures Digest(SHA256, H256, message)
         == DigestBytes(SHA256, Blocks(SHA256, H256, message + Padding(SHA256, |message|)))
  {
    SuitesValid();
    hide Blocks, DigestBytes, Padding;
  }

  // S0, S1, ch and maj as calculate_hash writes them.
  function CodeSigma0(a: bv32): bv32 { RotateRight(a, 2) ^ RotateRight(a, 13) ^ RotateRight(a, 22) }

  function CodeSigma1(e: bv32): bv32 { RotateRight(e, 6) ^ RotateRight(e, 11) ^ RotateRight(e, 25) }

  function CodeCh(e: bv32, f: bv32, g: bv32): bv32 { (e & f) ^ ((!e) & g) }

  function CodeMaj(a: bv32, b: bv32, c: bv32): bv32 { (a & b) ^ (a & c) ^ (b & c) }

  lemma CodeSigma0Meaning(a: bv32)
    ensures CodeSigma0(a) == BigSigma0x32(a)
  {
    hide RotateRight, Rotr32;
    calc {
      CodeSigma0(a);
      RotateRight(a, 2) ^ RotateRight(a, 13) ^ RotateRight(a, 22);
      { RotateRightIsRotation(a, 2); RotateRightIsRotation(a, 13); RotateRightIsRotation(a, 22); }
      Rotr32(a, 2) ^ Rotr32(a, 13) ^ Rotr32(a, 22);
      BigSigma0x32(a);
    }
  }

  lemma CodeSigma1Meaning(e: bv32)
    ensures CodeSigma1(e) == BigSigma1x32(e)
  {
    hide RotateRight, Rotr32;
    calc {
      CodeSigma1(e);
      RotateRight(e, 6) ^ RotateRight(e, 11) ^ RotateRight(e, 25);
      { RotateRightIsRotation(e, 6); RotateRightIsRotation(e, 11); RotateRightIsRotation(e, 25); }
      Rotr32(e, 6) ^ Rotr32(e, 11) ^ Rotr32(e, 25);
      BigSigma1x32(e);
    }
  }

  lemma RoundMeaning(r: Regs<bv32>, k: bv32, w: bv32)
    ensures var t1 := Add32(Add32(Add32(Add32(r.h, CodeSigma1(r.e)), CodeCh(r.e, r.f, r.g)), k), w);
            var t2 := Add32(CodeSigma0(r.a), CodeMaj(r.a, r.b, r.c));
            Round(SHA256, r, k, w) == Regs(Add32(t1, t2), r.a, r.b, r.c, Add32(r.d, t1), r.e, r.f, r.g)
  {
    CodeSigma0Meaning(r.a);
    CodeSigma1Meaning(r.e);
    hide Add32, BigSigma0x32, BigSigma1x32, CodeSigma0, CodeSigma1;
  }

  lemma ScheduleLoad(block: seq<byte>, t: nat)
    requires |block| == 64 && t < 16
    ensures Schedule(SHA256, block, t) == Pack32(block[4 * t..4 * t + 4])
  {
    hide Pack32;
  }

  lemma ScheduleStep(block: seq<byte>, t: nat)
    requires |block| == 64 && t >= 16
    ensures Schedule(SHA256, block, t)
         == NextWord(Schedule(SHA256, block, t - 16), Schedule(SHA256, block, t - 15),
                     Schedule(SHA256, block, t - 7), Schedule(SHA256, block, t - 2))
  {
    hide NextWord, Add32, Sigma0x32, Sigma1x32, Pack32;
    NextWordMeaning(Schedule(SHA256, block, t - 16), Schedule(SHA256, block, t - 15),
                    Schedule(SHA256, block, t - 7), Schedule(SHA256, block, t - 2));
  }

  // The schedule step of calculate_hash, in its own order of additions.
  function NextWord(w16: bv32, w15: bv32, w7: bv32, w2: bv32): bv32 {
    var s0 := RotateRight(w15, 7) ^ RotateRight(w15, 18) ^ (w15 >> 3);
    var s1 := RotateRight(w2, 17) ^ RotateRight(w2, 19) ^ (w2 >> 10);
    Add32(Add32(Add32(w16, s0), w7), s1)
  }

  lemma NextWordMeaning(w16: bv32, w15: bv32, w7: bv32, w2: bv32)
    ensures NextWord(w16, w15, w7, w2)
         == Add32(Add32(Add32(Sigma1x32(w2), w7), Sigma0x32(w15)), w16)
  {
    hide RotateRight, Sigma0x32, Sigma1x32, Add32;
    ScheduleRotations(w15, w2);
    AddReordered(w16, Sigma0x32(w15), w7, Sigma1x32(w2));
  }

  lemma ScheduleRotations(w15: bv32, w2: bv32)
    ensures RotateRight(w15, 7) ^ RotateRight(w15, 18) ^ (w15 >> 3) == Sigma0x32(w15)
    ensures RotateRight(w2, 17) ^ RotateRight(w2, 19) ^ (w2 >> 10) == Sigma1x32(w2)
  {
    hide RotateRight, Rotr32;
    RotateRightIsRotation(w15, 7);
    RotateRightIsRotation(w15, 18);
    RotateRightIsRotation(w2, 17);
    RotateRightIsRotation(w2, 19);
  }

  lemma AddReordered(a: bv32, b: bv32, c: bv32, d: bv32)
    ensures Add32(Add32(Add32(a, b), c), d) == Add32(Add32(Add32(d, c), b), a)
  {
    hide Add32;
    AddCommutes(a, b);
    AddCommutes(Add32(b, a), c);
    AddAssociates(c, b, a);
    AddCommutes(Add32(Add32(c, b), a), d);
    AddAssociates(d, Add32(c, b), a);
    AddAssociates(d, c, b);
  }

  lemma AddCommutes(x: bv32, y: bv32)
    ensures Add32(x, y) == Add32(y, x)
  {
  }

  lemma AddAssociates(x: bv32, y: bv32, z: bv32)
    ensures Add32(x, Add32(y, z)) == Add32(Add32(x, y), z)
  {
    calc {
      Add32(x, Add32(y, z));
      x + Add32(y, z);
      x + (y + z);
      (x + y) + z;
      Add32(x, y) + z;
      Add32(Add32(x, y), z);
    }
  }
}
