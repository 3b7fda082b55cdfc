/** PBKDF2 with HMAC-SHA-256: section 5.2 of RFC 2898 and pbkdf2.c. */
module Pbkdf2 {
  import opened Bytes
  import opened Sha2
  import opened Sha2Suites
  import opened HmacSha2

  const ITERATIONS := 1000  // PBKDF2_ITERATIONS in conf_user_settings.h

  function Xor(a: byte, b: byte): byte { a ^ b }

  function XorBytes(s: seq<byte>, t: seq<byte>): (r: seq<byte>)
    requires |s| == |t|
    ensures |r| == |s|
  {
    seq(|s|, i requires 0 <= i < |s| => Xor(s[i], t[i]))
  }

  ghost function Prf(password: seq<byte>, text: seq<byte>): (r: seq<byte>)
    ensures |r| == 32
  {
    SuitesValid();
    PrfLength(password, text);
    Hmac(Standard(SHA256, H256), 64, password, text)
  }

  lemma PrfLength(password: seq<byte>, text: seq<byte>)
    requires SHA256.Valid()
    ensures |Hmac(Standard(SHA256, H256), 64, password, text)| == 32
  {
    hide BlockKey;
    var k := BlockKey(Standard(SHA256, H256), 64, password);
    DigestLength(SHA256, H256, XorAll(k, 0x5c) + Standard(SHA256, H256)(XorAll(k, 0x36) + text));
  }

  // U_j of block i.
  ghost function U(password: seq<byte>, salt: seq<byte>, i: nat, j: nat): (r: seq<byte>)
    requires j >= 1
    ensures |r| == 32
  {
    Prf(password, if j == 1 then salt + BigEndian(i, 4) else U(password, salt, i, j - 1))
  }

  // T_i = U_1 xor ... xor U_c.
  ghost function T(password: seq<byte>, salt: seq<byte>, i: nat, c: nat): (r: seq<byte>)
    requires c >= 1
    ensures |r| == 32
  {
    if c == 1 then U(password, salt, i, 1) else XorBytes(T(password, salt, i, c - 1), U(password, salt, i, c))
  }

  /** U_1 is the HMAC, under the password, of the salt and the block number, and every further U is the HMAC of the
      one before. */
  lemma UChain(password: seq<byte>, salt: seq<byte>, i: nat, j: nat)
    requires j >= 1 && SHA256.Valid()
    ensures U(password, salt, i, 1) == Hmac(Standard(SHA256, H256), 64, password, salt + BigEndian(i, 4))
    ensures U(password, salt, i, j + 1) == Hmac(Standard(SHA256, H256), 64, password, U(password, salt, i, j))
  {
    hide Hmac, Standard;
  }

  function XorOf(bytes: seq<byte>): byte {
    if bytes == [] then 0 else XorOf(bytes[..|bytes| - 1]) ^ bytes[|bytes| - 1]
  }

  function Column(rows: seq<seq<byte>>, k: nat): (c: seq<byte>)
    requires forall j :: 0 <= j < |rows| ==> |rows[j]| > k
    ensures |c| == |rows|
  {
    seq(|rows|, j requires 0 <= j < |rows| => rows[j][k])
  }

  // The strings U_1, U_2 and so on of block i.
  ghost predicate IsChain(us: seq<seq<byte>>, password: seq<byte>, salt: seq<byte>, i: nat) {
    SuitesValid();
    && us != [] && (forall j :: 0 <= j < |us| ==> |us[j]| == 32)
    && us[0] == Hmac(Standard(SHA256, H256), 64, password, salt + BigEndian(i, 4))
    && forall j :: 0 <= j < |us| - 1 ==> us[j + 1] == Hmac(Standard(SHA256, H256), 64, password, us[j])
  }

  lemma ChainPrefix(us: seq<seq<byte>>, password: seq<byte>, salt: seq<byte>, i: nat)
    requires IsChain(us, password, salt, i) && |us| > 1
    ensures IsChain(us[..|us| - 1], password, salt, i)
  {
    hide Hmac, Standard;
  }

  lemma {:induction false} LastIsU(us: seq<seq<byte>>, password: seq<byte>, salt: seq<byte>, i: nat)
    requires IsChain(us, password, salt, i)
    ensures us[|us| - 1] == U(password, salt, i, |us|)
    decreases |us|
  {
    SuitesValid();
    hide Hmac, Standard, U;
    var c := |us| - 1;
    UChain(password, salt, i, if c == 0 then 1 else c);
    if c != 0 {
      ChainPrefix(us, password, salt, i);
      LastIsU(us[..c], password, salt, i);
      assert us[c - 1 + 1] == Hmac(Standard(SHA256, H256), 64, password, us[c - 1]);
    }
  }

  lemma NextByte(password: seq<byte>, salt: seq<byte>, i: nat, c: nat, k: nat)
    requires c >= 1 && k < 32
    ensures T(password, salt, i, c)[k]
         == (if c == 1 then 0 else T(password, salt, i, c - 1)[k]) ^ U(password, salt, i, c)[k]
  {
    hide U;
  }

  lemma XorOfSnoc(bytes: seq<byte>, b: byte)
    ensures XorOf([]) == 0 && XorOf(bytes + [b]) == XorOf(bytes) ^ b
  {
    assert (bytes + [b])[..|bytes|] == bytes;
  }

  lemma ColumnSnoc(rows: seq<seq<byte>>, k: nat)
    requires rows != [] && forall j :: 0 <= j < |rows| ==> |rows[j]| > k
    ensures Column(rows, k) == Column(rows[..|rows| - 1], k) + [rows[|rows| - 1][k]]
    ensures Column([], k) == []
  {
  }

  /** Byte k of T_c is the xor of byte k of U_1 to U_c. */
  lemma {:induction false} TIsXor(us: seq<seq<byte>>, password: seq<byte>, salt: seq<byte>, i: nat, k: nat)
    requires IsChain(us, password, salt, i) && k < 32
    ensures T(password, salt, i, |us|)[k] == XorOf(Column(us, k))
    decreases |us|
  {
    var c := |us| - 1;
    LastIsU(us, password, salt, i);
    NextByte(password, salt, i, |us|, k);
    ColumnSnoc(us, k);
    XorOfSnoc(Column(us[..c], k), us[c][k]);
    hide U, T, XorOf, Column, Hmac, Standard;
    if c != 0 {
      ChainPrefix(us, password, salt, i);
      TIsXor(us[..c], password, salt, i, k);
    }
  }

  /** Xor leaves a buffer with exactly the other operand when, and only when, it was zero. */
  lemma XorIntoZero(old_: seq<byte>, t: seq<byte>)
    requires |old_| == |t|
    ensures XorBytes(old_, t) == t <==> old_ == Zeros(|t|)
  {
    if XorBytes(old_, t) == t {
      forall i | 0 <= i < |t| ensures old_[i] == 0 {
        assert t[i] == Xor(old_[i], t[i]);
      }
    }
  }

  // xor_func of Salt.c: len words of value2 are xored into value1 in place.
  method XorFunc(value1: array<byte>, value2: seq<byte>, len: nat)
    requires 4 * len <= value1.Length && |value2| == 4 * len
    modifies value1
    ensures value1[..4 * len] == XorBytes(old(value1[..4 * len]), value2)
    ensures value1[4 * len..] == old(value1[4 * len..])
  {
    for i := 0 to len
      invariant forall k :: 0 <= k < 4 * i ==> value1[k] == Xor(old(value1[k]), value2[k])
      invariant forall k :: 4 * i <= k < value1.Length ==> value1[k] == old(value1[k])
    {
      XorWordAt(value1, 4 * i, value2[4 * i..4 * i + 4]);
    }
  }

  // *value1 = *value1 ^ *value2
  method XorWordAt(value1: array<byte>, o: nat, t: seq<byte>)
    requires o + 4 <= value1.Length && |t| == 4
    modifies value1
    ensures forall k :: 0 <= k < value1.Length ==>
      value1[k] == if o <= k < o + 4 then Xor(old(value1[k]), t[k - o]) else old(value1[k])
  {
    hide XorWords, Xor;
    var word := XorWords(value1[o..o + 4], t);
    value1[o], value1[o + 1], value1[o + 2], value1[o + 3] := word[0], word[1], word[2], word[3];
  }

  // *value1 ^ *value2 as the bytes of a big-endian word.
  function XorWords(s: seq<byte>, t: seq<byte>): (r: seq<byte>)
    requires |s| == |t| == 4
    ensures r == [Xor(s[0], t[0]), Xor(s[1], t[1]), Xor(s[2], t[2]), Xor(s[3], t[3])]
  {
    XorWordBytes(s, t);
    Unpack32(Pack32(s) ^ Pack32(t))
  }

  lemma XorWordBytes(s: seq<byte>, t: seq<byte>)
    requires |s| == |t| == 4
    ensures Unpack32(Pack32(s) ^ Pack32(t)) == [Xor(s[0], t[0]), Xor(s[1], t[1]), Xor(s[2], t[2]), Xor(s[3], t[3])]
  {
  }

  // The text of the first pass: the salt and the block number.
  method SaltBlock(salt: seq<byte>, blockNum: nat, ubuffer: array<byte>)
    requires |salt| == 32 && blockNum < UINT && ubuffer.Length == 36
    modifies ubuffer
    ensures ubuffer[..36] == salt + BigEndian(blockNum, 4)
  {
    hide UnpackLength;
    var int4 := UnpackLength(blockNum);
    for i := 0 to 32
      invariant forall k :: 0 <= k < i ==> ubuffer[k] == salt[k]
    {
      ubuffer[i] := salt[i];
    }
    ubuffer[32], ubuffer[33], ubuffer[34], ubuffer[35] := int4[0], int4[1], int4[2], int4[3];
  }

  // One pass of the inner loop; iterationCount passes have been made.
  method Iterate(password: seq<byte>, salt: seq<byte>, blockNum: nat, iterationCount: nat,
                 ubuffer: array<byte>, fbuffer: array<byte>)
    requires |password| == |salt| == 32 && blockNum < UINT
    requires ubuffer.Length == 36 && fbuffer.Length == 32 && ubuffer != fbuffer
    requires iterationCount == 0 ==> fbuffer[..] == Zeros(32)
    requires iterationCount > 0 ==> ubuffer[..32] == U(password, salt, blockNum, iterationCount)
    requires iterationCount > 0 ==> fbuffer[..] == T(password, salt, blockNum, iterationCount)
    modifies ubuffer, fbuffer
    ensures ubuffer[..32] == U(password, salt, blockNum, iterationCount + 1)
    ensures fbuffer[..] == T(password, salt, blockNum, iterationCount + 1)
  {
    var mac: seq<byte>;
    hide Hmac, Standard;
    if iterationCount == 0 {
      SaltBlock(salt, blockNum, ubuffer);
      assert fbuffer[..] == Zeros(32);
      mac := HmacSha256(password, ubuffer[..36], 32);
    } else {
      mac := HmacSha256(password, ubuffer[..32], 32);
    }
    assert mac == U(password, salt, blockNum, iterationCount + 1);
    if iterationCount == 0 {
      XorIntoZero(Zeros(32), mac);
    }
    XorFunc(fbuffer, mac, 8);
    assert fbuffer[..] == fbuffer[..32];
    forall i | 0 <= i < 32 { ubuffer[i] := mac[i]; }
  }

  // The inner loop: all passes for one block.
  method Block(password: seq<byte>, salt: seq<byte>, blockNum: nat, ubuffer: array<byte>, fbuffer: array<byte>)
    requires |password| == |salt| == 32 && blockNum < UINT
    requires ubuffer.Length == 36 && fbuffer.Length == 32 && ubuffer != fbuffer && fbuffer[..] == Zeros(32)
    modifies ubuffer, fbuffer
    ensures fbuffer[..] == T(password, salt, blockNum, ITERATIONS)
  {
    hide U, T;
    var iterationCount := 0;
    while iterationCount < ITERATIONS
      invariant iterationCount <= ITERATIONS
      invariant iterationCount == 0 ==> fbuffer[..] == Zeros(32)
      invariant iterationCount > 0 ==> ubuffer[..32] == U(password, salt, blockNum, iterationCount)
      invariant iterationCount > 0 ==> fbuffer[..] == T(password, salt, blockNum, iterationCount)
    {
      Iterate(password, salt, blockNum, iterationCount, ubuffer, fbuffer);
      iterationCount := iterationCount + 1;
    }
  }

  lemma ByteOfKey(was: seq<byte>, now: seq<byte>, password: seq<byte>, salt: seq<byte>, us: seq<seq<byte>>, k: nat)
    requires |was| == 32 && now == XorBytes(was, T(password, salt, 1, ITERATIONS)) && k < 32
    requires |us| == 1000 && IsChain(us, password, salt, 1)
    ensures now[k] == was[k] ^ XorOf(Column(us, k))
  {
    TIsXor(us, password, salt, 1, k);
    hide T, XorOf, Column, IsChain;
  }

  // pbkdf2_func: hLen / hLen == 1 block is produced, and xored into the caller's buffer.
  method Pbkdf2Func(password: seq<byte>, salt: seq<byte>, derivedKey: array<byte>)
    requires |password| == |salt| == 32 && derivedKey.Length >= 32
    modifies derivedKey
    ensures derivedKey[..32] == XorBytes(old(derivedKey[..32]), T(password, salt, 1, ITERATIONS))
    ensures derivedKey[32..] == old(derivedKey[32..])
    ensures forall us: seq<seq<byte>>, k | |us| == 1000 && IsChain(us, password, salt, 1) && 0 <= k < 32 ::
      derivedKey[k] == old(derivedKey[k]) ^ XorOf(Column(us, k))
  {
    hide U, T, Hmac, Standard, XorOf, Column;
    var ubuffer := new byte[36](_ => 0);
    var fbuffer := new byte[32](_ => 0);
    var totalBlocks, blockNum := 1, 1;
    while blockNum <= totalBlocks
      invariant 1 <= blockNum <= 2
      invariant fbuffer[..] == Zeros(32)
      invariant blockNum == 1 ==> derivedKey[..] == old(derivedKey[..])
      invariant blockNum == 2 ==>
        && derivedKey[..32] == XorBytes(old(derivedKey[..32]), T(password, salt, 1, ITERATIONS))
        && derivedKey[32..] == old(derivedKey[32..])
    {
      Block(password, salt, blockNum, ubuffer, fbuffer);
      assert derivedKey[..32] == old(derivedKey[..])[..32] && derivedKey[32..] == old(derivedKey[..])[32..];
      XorFunc(derivedKey, fbuffer[..], 8);
      forall i | 0 <= i < 32 { fbuffer[i] := 0; }
      blockNum := blockNum + 1;
    }
    ghost var was, now := old(derivedKey[..32]), derivedKey[..32];
    assert forall k :: 0 <= k < 32 ==> derivedKey[k] == now[k] && old(derivedKey[k]) == was[k];
    forall us: seq<seq<byte>>, k | |us| == 1000 && IsChain(us, password, salt, 1) && 0 <= k < 32
      ensures now[k] == was[k] ^ XorOf(Column(us, k))
    {
      ByteOfKey(was, now, password, salt, us, k);
    }
  }
}
