/** HMAC over SHA-2: the definition of RFC 2104 and the contexts of hmac/hmac_sha2.c. */
module HmacSha2 {
  import opened Bytes
  import opened Fips180
  import opened Sha2
  import opened Sha2Suites

  function XorAll(s: seq<byte>, x: byte): (r: seq<byte>)
    ensures |r| == |s|
  {
    seq(|s|, i requires 0 <= i < |s| => s[i] ^ x)
  }

  // RFC 2104 section 2: the key, hashed when longer than a block, extended with zeros to B bytes.
  ghost function BlockKey(hash: seq<byte> -> seq<byte>, b: nat, key: seq<byte>): seq<byte> {
    var k := if |key| > b then hash(key) else key;
    if |k| <= b then k + Zeros(b - |k|) else k
  }

  // RFC 2104 section 2: H(K XOR opad, H(K XOR ipad, text)).
  ghost function Hmac(hash: seq<byte> -> seq<byte>, b: nat, key: seq<byte>, text: seq<byte>): seq<byte> {
    var k := BlockKey(hash, b, key);
    hash(XorAll(k, 0x5c) + hash(XorAll(k, 0x36) + text))
  }

  /** A key shorter than a block counts as the same key with zeros behind it, one longer than a block as its hash. */
  lemma EquivalentKeys(hash: seq<byte> -> seq<byte>, b: nat, key: seq<byte>, text: seq<byte>)
    ensures |key| <= b ==> Hmac(hash, b, key, text) == Hmac(hash, b, key + Zeros(b - |key|), text)
    ensures |key| > b >= |hash(key)| ==> Hmac(hash, b, key, text) == Hmac(hash, b, hash(key), text)
  {
    if |key| <= b {
      var k := key + Zeros(b - |key|);
      assert k + Zeros(0) == k;
    }
  }

  /** With a key of one block: the text is hashed behind the key xored with 0x36, and the result behind the key xored
      with 0x5c. */
  lemma HmacOfBlockKey(hash: seq<byte> -> seq<byte>, key: seq<byte>, text: seq<byte>, ipad: seq<byte>,
                       opad: seq<byte>)
    requires |ipad| == |opad| == |key|
    requires forall i :: 0 <= i < |key| ==> ipad[i] == key[i] ^ 0x36 && opad[i] == key[i] ^ 0x5c
    ensures Hmac(hash, |key|, key, text) == hash(opad + hash(ipad + text))
  {
    assert key + Zeros(0) == key;
    assert ipad == XorAll(key, 0x36) && opad == XorAll(key, 0x5c);
  }

  // The standard hash, and what the code computes, as functions of the message.
  ghost function Standard<W(!new)>(su: Suite<W>, iv: Regs<W>): seq<byte> -> seq<byte>
    requires su.Valid()
  {
    (m: seq<byte>) => Digest(su, iv, m)
  }

  ghost function Code<W(!new)>(su: Suite<W>, iv: Regs<W>): seq<byte> -> seq<byte>
    requires su.Valid()
  {
    (m: seq<byte>) => CodeDigest(su, iv, m)
  }

  lemma DigestLength<W(!new)>(su: Suite<W>, iv: Regs<W>, m: seq<byte>)
    requires su.Valid()
    ensures |Digest(su, iv, m)| == |CodeDigest(su, iv, m)| == 8 * su.WordBytes() <= su.B()
  {
    hide Hash, CodeHash;
  }

  /** Keys and texts for which the code's HMAC is the HMAC of the standard. */
  lemma CodeHmacIsStandard<W(!new)>(su: Suite<W>, iv: Regs<W>, key: seq<byte>, text: seq<byte>)
    requires su.Valid() && |key| < 0x2000_0000 && |text| < 0x2000_0000 - su.B()
    ensures Hmac(Code(su, iv), su.B(), key, text) == Hmac(Standard(su, iv), su.B(), key, text)
  {
    hide Digest, CodeDigest;
    CodeDigestIsStandard(su, iv, key);
    DigestLength(su, iv, key);
    var k := BlockKey(Standard(su, iv), su.B(), key);
    assert k == BlockKey(Code(su, iv), su.B(), key);
    var inner := XorAll(k, 0x36) + text;
    CodeDigestIsStandard(su, iv, inner);
    DigestLength(su, iv, inner);
    CodeDigestIsStandard(su, iv, XorAll(k, 0x5c) + Digest(su, iv, inner));
  }

  class HmacCtx<W(0,!new)> {
    const inside: Ctx<W>
    const outside: Ctx<W>
    const insideReinit: Ctx<W>
    const outsideReinit: Ctx<W>
    const blockIpad: array<byte>
    const blockOpad: array<byte>
    ghost var key: seq<byte>   // the key of the last Init
    ghost var text: seq<byte>  // what was absorbed since Init or Reinit

    ghost predicate Shape() {
      && inside.Shape() && outside.Shape() && insideReinit.Shape() && outsideReinit.Shape()
      && Apart(inside, outside) && Apart(inside, insideReinit) && Apart(inside, outsideReinit)
      && Apart(outside, insideReinit) && Apart(outside, outsideReinit) && Apart(insideReinit, outsideReinit)
      && blockIpad != blockOpad && blockIpad.Length == blockOpad.Length == inside.suite.B()
    }

    function Objects(): set<object> {
      {this, blockIpad, blockOpad, inside, inside.block, inside.h, outside, outside.block, outside.h,
       insideReinit, insideReinit.block, insideReinit.h, outsideReinit, outsideReinit.block, outsideReinit.h}
    }

    ghost function Hash(): seq<byte> -> seq<byte>
      requires inside.Shape()
    {
      Code(inside.suite, inside.iv)
    }

    ghost function K0(): seq<byte>
      requires inside.Shape()
      reads this
    {
      BlockKey(Hash(), inside.suite.B(), key)
    }

    // A key has been set: the saved contexts have absorbed the two padded keys.
    ghost predicate Keyed()
      reads Objects()
    {
      && Shape()
      && insideReinit.Valid() && insideReinit.message == XorAll(K0(), 0x36)
      && outsideReinit.Valid() && outsideReinit.message == XorAll(K0(), 0x5c)
    }

    // A round is open: the working contexts continue the saved ones.
    ghost predicate Open()
      reads Objects()
    {
      && Keyed()
      && inside.Valid() && inside.message == XorAll(K0(), 0x36) + text
      && outside.Valid() && outside.message == XorAll(K0(), 0x5c)
    }

    constructor (su: Suite<W>, iv: Regs<W>, unrollLoops: bool)
      requires su.Valid()
      ensures Shape() && fresh(Objects())
      ensures inside.suite == su && inside.iv == iv
    {
      inside := new Ctx<W>(su, iv, unrollLoops);
      outside := new Ctx<W>(su, iv, unrollLoops);
      insideReinit := new Ctx<W>(su, iv, unrollLoops);
      outsideReinit := new Ctx<W>(su, iv, unrollLoops);
      blockIpad, blockOpad := new byte[su.B()], new byte[su.B()];
      key, text := [], [];
    }

    // The two padded key blocks of hmac_sha256_init.
    method PadKey(keyUsed: seq<byte>)
      requires |keyUsed| <= blockIpad.Length == blockOpad.Length && blockIpad != blockOpad
      modifies blockIpad, blockOpad
      ensures blockIpad[..] == XorAll(keyUsed + Zeros(blockIpad.Length - |keyUsed|), 0x36)
      ensures blockOpad[..] == XorAll(keyUsed + Zeros(blockIpad.Length - |keyUsed|), 0x5c)
    {
      var num := |keyUsed|;
      forall i | num <= i < blockIpad.Length { blockIpad[i] := 0x36; }
      forall i | num <= i < blockOpad.Length { blockOpad[i] := 0x5c; }
      for i := 0 to num
        invariant forall j :: 0 <= j < i ==> blockIpad[j] == keyUsed[j] ^ 0x36 && blockOpad[j] == keyUsed[j] ^ 0x5c
        invariant forall j :: num <= j < blockIpad.Length ==> blockIpad[j] == 0x36 && blockOpad[j] == 0x5c
      {
        blockIpad[i] := keyUsed[i] ^ 0x36;
        blockOpad[i] := keyUsed[i] ^ 0x5c;
      }
    }

    // The key to pad: hashed first when it is longer than a block.
    method KeyUsed(key: seq<byte>) returns (keyUsed: seq<byte>)
      requires Shape() && |key| + inside.suite.B() <= UINT
      ensures |keyUsed| <= inside.suite.B()
      ensures keyUsed + Zeros(inside.suite.B() - |keyUsed|) == BlockKey(Hash(), inside.suite.B(), key)
    {
      hide CodeDigest;
      if |key| > inside.suite.B() {
        keyUsed := HashInPieces(inside.suite, inside.iv, inside.unrollLoops, [key]);
        assert Flatten([key]) == key;
        DigestLength(inside.suite, inside.iv, key);
      } else {
        keyUsed := key;
      }
    }

    // hmac_sha256_init
    method Init(key: seq<byte>)
      requires Shape() && |key| + inside.suite.B() <= UINT
      modifies Objects()
      ensures Open() && this.key == key && text == []
    {
      hide Ctx.Valid, BlockKey;
      var keyUsed := KeyUsed(key);
      this.key, text := key, [];
      PadKey(keyUsed);
      StartPadded(inside, blockIpad[..]);
      StartPadded(outside, blockOpad[..]);
      SaveContexts();
    }

    // The copies that hmac_sha256_init makes for hmac_sha256_reinit.
    method SaveContexts()
      requires Shape()
      requires inside.Valid() && inside.message == XorAll(K0(), 0x36)
      requires outside.Valid() && outside.message == XorAll(K0(), 0x5c)
      requires text == []
      modifies insideReinit, insideReinit.block, insideReinit.h, outsideReinit, outsideReinit.block, outsideReinit.h
      ensures Open()
    {
      hide Ctx.Valid, BlockKey;
      insideReinit.CopyFrom(inside);
      outsideReinit.CopyFrom(outside);
    }

    // hmac_sha256_reinit
    method Reinit()
      requires Keyed()
      modifies Objects()
      ensures Open() && key == old(key) && text == []
    {
      hide Ctx.Valid, BlockKey;
      text := [];
      inside.CopyFrom(insideReinit);
      outside.CopyFrom(outsideReinit);
    }

    // hmac_sha256_update
    method Update(data: seq<byte>)
      requires Open() && |data| + inside.suite.B() <= UINT
      modifies Objects()
      ensures Open() && key == old(key) && text == old(text) + data
    {
      hide Absorbed, BlockKey;
      text := text + data;
      inside.Update(data);
    }

    method UpdateAll(pieces: seq<seq<byte>>)
      requires Open() && forall piece <- pieces :: |piece| + inside.suite.B() <= UINT
      modifies Objects()
      ensures Open() && key == old(key) && text == old(text) + Flatten(pieces)
    {
      hide Ctx.Valid, BlockKey;
      for i := 0 to |pieces|
        invariant Open() && key == old(key) && text == old(text) + Flatten(pieces[..i])
      {
        assert pieces[..i + 1] == pieces[..i] + [pieces[i]];
        FlattenSnoc(pieces[..i], pieces[i]);
        Update(pieces[i]);
      }
      assert pieces[..|pieces|] == pieces;
    }

    // hmac_sha256_final: the working contexts are spent, the saved ones are not.
    method Final(macSize: nat) returns (mac: seq<byte>)
      requires Open() && macSize <= 8 * inside.suite.WordBytes()
      modifies Objects()
      ensures Keyed() && key == old(key)
      ensures mac == FirstBytes(Hmac(Hash(), inside.suite.B(), key, old(text)), macSize)
    {
      hide Ctx.Valid, BlockKey, CodeDigest, Hmac;
      ghost var su, iv := inside.suite, inside.iv;
      DigestLength(su, iv, inside.message);
      var digestInside := inside.Final();
      DigestLength(su, iv, outside.message + digestInside);
      var macTemp := HashMore(outside, digestInside);
      mac := macTemp[..macSize];
      HmacUnfolds(su, iv, key, old(text), digestInside, macTemp);
    }
  }

  lemma HmacUnfolds<W(!new)>(su: Suite<W>, iv: Regs<W>, key: seq<byte>, text: seq<byte>,
                             digestInside: seq<byte>, mac: seq<byte>)
    requires su.Valid()
    requires digestInside == CodeDigest(su, iv, XorAll(BlockKey(Code(su, iv), su.B(), key), 0x36) + text)
    requires mac == CodeDigest(su, iv, XorAll(BlockKey(Code(su, iv), su.B(), key), 0x5c) + digestInside)
    ensures mac == Hmac(Code(su, iv), su.B(), key, text)
  {
    hide CodeDigest, BlockKey;
  }

  ghost predicate Apart<W(0,!new)>(x: Ctx<W>, y: Ctx<W>) {
    x != y && x.block != y.block && x.h != y.h && x.suite == y.suite && x.iv == y.iv
  }

  method StartPadded<W(0,!new)>(ctx: Ctx<W>, pad: seq<byte>)
    requires ctx.Shape() && |pad| == ctx.suite.B()
    modifies ctx, ctx.block, ctx.h
    ensures ctx.Valid() && ctx.message == pad
  {
    hide Absorbed;
    ctx.Init();
    ctx.Update(pad);
  }

  method HashMore<W(0,!new)>(ctx: Ctx<W>, data: seq<byte>) returns (digest: seq<byte>)
    requires ctx.Valid() && |data| + ctx.suite.B() <= UINT
    modifies ctx, ctx.block, ctx.h
    ensures ctx.Shape()
    ensures digest == CodeDigest(ctx.suite, ctx.iv, old(ctx.message) + data)
  {
    hide Absorbed, CodeDigest;
    ctx.Update(data);
    digest := ctx.Final();
  }

  /** One key, any number of rounds (updates, then final), with reinit between the rounds: every
    MAC is the HMAC of its own round's message. */
  method HmacRounds<W(0,!new)>(su: Suite<W>, iv: Regs<W>, unrollLoops: bool, key: seq<byte>,
                               rounds: seq<seq<seq<byte>>>, macSize: nat)
    returns (macs: seq<seq<byte>>)
    requires su.Valid() && |key| + su.B() <= UINT && macSize <= 8 * su.WordBytes()
    requires forall round <- rounds, piece <- round :: |piece| + su.B() <= UINT
    ensures |macs| == |rounds|
    ensures forall r :: 0 <= r < |rounds| ==>
      macs[r] == FirstBytes(Hmac(Code(su, iv), su.B(), key, Flatten(rounds[r])), macSize)
    ensures forall r :: 0 <= r < |rounds| && |key| < 0x2000_0000 && |Flatten(rounds[r])| < 0x2000_0000 - su.B() ==>
      macs[r] == FirstBytes(Hmac(Standard(su, iv), su.B(), key, Flatten(rounds[r])), macSize)
  {
    hide Hmac, Code, Ctx.Valid, BlockKey, Standard, CodeDigest, Digest;
    var ctx := new HmacCtx<W>(su, iv, unrollLoops);
    ctx.Init(key);
    macs := [];
    for r := 0 to |rounds|
      invariant fresh(ctx.Objects()) && ctx.inside.suite == su && ctx.inside.iv == iv && ctx.key == key
      invariant ctx.Keyed() && (r == 0 ==> ctx.Open() && ctx.text == [])
      invariant |macs| == r
      invariant forall q :: 0 <= q < r ==>
        macs[q] == FirstBytes(Hmac(Code(su, iv), su.B(), key, Flatten(rounds[q])), macSize)
    {
      if r > 0 {
        ctx.Reinit();
      }
      ctx.UpdateAll(rounds[r]);
      assert ctx.text == Flatten(rounds[r]);
      var mac := ctx.Final(macSize);
      macs := macs + [mac];
    }
    forall r | 0 <= r < |rounds| && |key| < 0x2000_0000 && |Flatten(rounds[r])| < 0x2000_0000 - su.B()
      ensures macs[r] == FirstBytes(Hmac(Standard(su, iv), su.B(), key, Flatten(rounds[r])), macSize)
    {
      CodeHmacIsStandard(su, iv, key, Flatten(rounds[r]));
    }
  }

  /** hmac_sha256 */
  method HmacSha256(key: seq<byte>, text: seq<byte>, macSize: nat) returns (mac: seq<byte>)
    requires |key| < 0x2000_0000 && |text| < 0x2000_0000 - 64 && macSize <= 32
    ensures |mac| == macSize
    ensures mac == FirstBytes(Hmac(Standard(SHA256, H256), 64, key, text), macSize)
  {
    SuitesValid();
    assert Flatten([text]) == text;
    DigestLength(SHA256, H256, XorAll(BlockKey(Code(SHA256, H256), 64, key), 0x5c)
                             + Code(SHA256, H256)(XorAll(BlockKey(Code(SHA256, H256), 64, key), 0x36) + text));
    CodeHmacIsStandard(SHA256, H256, key, text);
    hide Code, Standard;
    assert Flatten([[text]][0]) == text;
    var macs := HmacRounds(SHA256, H256, false, key, [[text]], macSize);
    mac := macs[0];
  }
}
