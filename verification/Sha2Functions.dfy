/** The four hash functions that sha2.c offers, over any number of updates. The 224 and 384 bit variants differ
    from their suites in the initial value, and they store only the first words of the result. */
module Sha2Functions {
  import opened Bytes
  import opened Fips180
  import opened Sha2
  import opened Sha2Suites

  // Pieces that unsigned int lengths can describe while up to a block is buffered.
  predicate Pieces(pieces: seq<seq<byte>>, block: nat) {
    forall piece <- pieces :: |piece| + block <= UINT
  }

  ghost predicate Short(pieces: seq<seq<byte>>) { |Flatten(pieces)| < 0x2000_0000 }

  method Sha224(pieces: seq<seq<byte>>, unrollLoops: bool) returns (digest: seq<byte>)
    requires Pieces(pieces, 64)
    ensures |digest| == 28
    ensures digest == FirstBytes(CodeDigest(SHA256, H224, Flatten(pieces)), 28)
    ensures Short(pieces) ==> digest == FirstBytes(Digest(SHA256, H224, Flatten(pieces)), 28)
  {
    hide CodeDigest, Digest;
    SuitesValid();
    Lengths(Flatten(pieces));
    var d := HashInPieces(SHA256, H224, unrollLoops, pieces);
    digest := d[..28];
  }

  method Sha256(pieces: seq<seq<byte>>, unrollLoops: bool) returns (digest: seq<byte>)
    requires Pieces(pieces, 64)
    ensures |digest| == 32
    ensures digest == CodeDigest(SHA256, H256, Flatten(pieces))
    ensures Short(pieces) ==> digest == Digest(SHA256, H256, Flatten(pieces))
  {
    hide CodeDigest, Digest;
    SuitesValid();
    Lengths(Flatten(pieces));
    digest := HashInPieces(SHA256, H256, unrollLoops, pieces);
  }

  method Sha384(pieces: seq<seq<byte>>, unrollLoops: bool) returns (digest: seq<byte>)
    requires Pieces(pieces, 128)
    ensures |digest| == 48
    ensures digest == FirstBytes(CodeDigest(SHA512, H384, Flatten(pieces)), 48)
    ensures Short(pieces) ==> digest == FirstBytes(Digest(SHA512, H384, Flatten(pieces)), 48)
  {
    hide CodeDigest, Digest;
    SuitesValid();
    Lengths(Flatten(pieces));
    var d := HashInPieces(SHA512, H384, unrollLoops, pieces);
    digest := d[..48];
  }

  method Sha512(pieces: seq<seq<byte>>, unrollLoops: bool) returns (digest: seq<byte>)
    requires Pieces(pieces, 128)
    ensures |digest| == 64
    ensures digest == CodeDigest(SHA512, H512, Flatten(pieces))
    ensures Short(pieces) ==> digest == Digest(SHA512, H512, Flatten(pieces))
  {
    hide CodeDigest, Digest;
    SuitesValid();
    Lengths(Flatten(pieces));
    digest := HashInPieces(SHA512, H512, unrollLoops, pieces);
  }

  lemma Lengths(message: seq<byte>)
    ensures SHA256.Valid() && SHA512.Valid()
    ensures |CodeDigest(SHA256, H224, message)| == |CodeDigest(SHA256, H256, message)| == 32
    ensures |CodeDigest(SHA512, H384, message)| == |CodeDigest(SHA512, H512, message)| == 64
  {
    hide CodeHash;
    SuitesValid();
  }
}
