# CryptX2 firmware: a verified model

CryptX2 is the firmware of a USB storage key with an AVR32 UC3 microcontroller. This project models the parts of it
that carry its logic and proves what they compute, for all inputs, all states and all runs:

- **Hashing.** The incremental SHA-2 contexts (256 and 512 bit, rolled and unrolled compression), HMAC over them,
  PBKDF2 over HMAC, and the second, single-block SHA-256 of the password code. `Fips180.dfy` states FIPS 180-2; RFC
  2104 and RFC 2898 are stated in `HmacSha2.dfy` and `Pbkdf2.dfy`. The code is proved against these statements.
  `Sha2Tables.dfy` traces the tables and word operations back to where FIPS 180-2 takes them from.
- **CRC.** The bitwise and the table-driven CRC-CCITT, shown equal to each other and to the remainder of a
  polynomial division, which `Gf2.dfy` defines independently, with the classical error-detection theorems.
- **Flash and fuses.** The page writer for arbitrary alignments on memory that erasing sets and writing clears, and
  the fuse editor with the bootloader-protected size.
- **USB.** The job table of a bulk, interrupt or isochronous endpoint, refined to a small protocol whose properties are
  proved over every run, its DMA chunks, and the IN data phase of a control transfer.
- **Clocks.** The search for PLL and prescaler settings.
- **Password entry.** The packed passcode and the tick machine that debounces buttons, enters a mode when a combination is
  held, asks for a new password twice and for an entered one once. `TickProtocol.dfy` states one tick and proves the runs;
  `TickMachine.dfy` is the handler.

Objects that the firmware updates in place are classes with the same fields; loops are loops; each is tied by its
contract to a specification function or predicate, and the lemmas are about those. Ghost fields record what only the
proofs need (the message so far, what was delivered to callbacks, which bytes really moved).

## Findings

The proofs fix exactly where the code meets its documentation.

- SHA-2 keeps the bit length in 32 bits, also in the 512-bit variant: the padding is the standard's if and only if the
  message is shorter than 2^29 bytes (`Sha2.CodePaddingIsStandard`).
- `calculate_hash` agrees with SHA-256 for up to 13 words; for 14 or 15 words its single block is not the padded message
  (`Sha256Block.PaddedBlockIsStandard`). Its rotation mask is one bit too wide, which is harmless
  (`Sha256Block.RotateRightIsRotation`).
- `pbkdf2_func` xors the key into the caller's buffer: the buffer holds the derived key if and only if it was zero
  before (`Pbkdf2.XorIntoZero`). `DK_aes_key` in Salt.c is not cleared between calls.
- A burst of 17 bits can go undetected: every message has another one with the same CRC that differs from it exactly by
  such a burst, at any chosen place, so the bound of 16 is sharp (`CrcErrors.BurstOf17`).
- A fuse bit-field that runs past fuse 63 wraps to fuse 0 when it is set, but not when it is read: reading back gives the
  value if and only if the field ends by fuse 63 or the bits beyond are zero (`Fuses.ReadBackExactly`). The check after
  erasing such a field always fails (`Fuses.FuseBank.EraseBitfield`). Setting a fuse byte with an index above 7, which the
  documentation excludes, erases nothing (`Fuses.FuseBank.SetByte`).
- `udd_ep_run`, `udd_ep_wait_stall_clear` and `udd_ep_set_halt` test for a halt or a running job before they store, and
  all these tests but one lie outside a critical section. If an interrupt steps in between, each of them keeps the
  protocol if and only if what it had tested still holds (`EndpointProtocol.RunStoreKeepsIff`, `WaitStoreKeepsIff`,
  `HaltStoreKeepsIff`); runs in which this is always so are safe (`EndpointProtocol.GoodMoves`). A wait whose halt is
  cleared in between blocks the endpoint until it is aborted or freed (`EndpointProtocol.LostWaiter`, `WaiterCanBeLost`).
- The DMA counter has 16 bits, so a full 65536-byte chunk that ended without moving a byte counts as complete. The size
  reported is the number of bytes moved in every run if and only if the transfer is shorter than 65536 bytes
  (`UsbEndpoint.ExactIffBelowMaximum`); for every longer one there is a run that reports 65536 bytes and has moved none
  (`UsbEndpoint.SilentChunk`).
- The static flag of `udd_ctrl_in_sent` survives from one request to the next: an IN request whose first payload buffer is
  empty is sent no packet if and only if no bytes were requested or the packet prepared last, for an earlier request, was
  short. That packet is the last one sent (`UsbControl.ControlIn.EmptyAfter`), or one that an abort of the host kept from
  being sent (`UsbControl.ControlIn.EmptyAfterAbort`).
- The peripheral-bus frequency is the best one not above the request if and only if the PLL runs at least as fast as
  the request; otherwise it is half the PLL frequency (`PllClock.PbaBest`). For a request above the bus limit it can exceed the
  limit, which the search tests in its guard but not in its break: it stays within the limit if and only if halving the PLL
  frequency meets nothing between the limit and the request (`PllClock.PbaWithinLimit`, `PllClock.PbaOverLimit`). For a CPU
  request of 0 the VCO loop does not end (`PllClock.ZeroRequestLoops`).
- The packed passcode is lossless for up to n presses if and only if n is at most 127 (`Passcode.LosslessExactly`).
- Entering a mode clears neither the password buffer nor its index. The first comparison in normal mode sees the password
  after whatever was typed before (`TickProtocol.LogIn`), so that, up to 127 presses in all, it is the password's own buffer if and only
  if nothing was (`TickProtocol.SeenAlone`): after reset and after a device id was set, but not after an unlock password was set, which
  leaves at least a terminator (`TickProtocol.RoundLeaves`). Every later tick compares again, with one more terminator
  (`TickProtocol.LaterChecks`).

## Model

Paths are relative to the repository; line ranges are those of the code or of the promise that the member is about.

| member | source | states |
|---|---|---|
| Sha2.CodePaddingIsStandard | cryptx2/src/cryptX2/hmac/sha2.c:388-424 | the padding written by the final function is that of FIPS 180-2 section 5.1 if and only if the message has fewer than 2^29 bytes |
| Sha2.CodeDigestIsStandard | cryptx2/src/cryptX2/hmac/sha2.c:327-334 | below 2^29 bytes the code's digest is the standard's |
| Sha2.HashInPieces | cryptx2/src/cryptX2/hmac/sha2.c:336-424 | init, any number of updates and final give the digest of the concatenation, with either compression |
| Sha2Functions.Sha224 | cryptx2/src/cryptX2/hmac/sha2.c:725-822 | the first 28 bytes of the SHA-224 chain of the concatenated updates |
| Sha2Functions.Sha256 | cryptx2/src/cryptX2/hmac/sha2.c:327-424 | SHA-256 of the concatenated updates |
| Sha2Functions.Sha384 | cryptx2/src/cryptX2/hmac/sha2.c:625-721 | the first 48 bytes of the SHA-384 chain of the concatenated updates |
| Sha2Functions.Sha512 | cryptx2/src/cryptX2/hmac/sha2.c:523-621 | SHA-512 of the concatenated updates |
| Sha2.Ctx.Init | cryptx2/src/cryptX2/hmac/sha2.c:336-352 | the context describes the empty message |
| Sha2.Ctx.Update | cryptx2/src/cryptX2/hmac/sha2.c:354-386 | the context describes the message with the data appended: less than a block buffered, the rest hashed and counted |
| Sha2.Ctx.Final | cryptx2/src/cryptX2/hmac/sha2.c:388-424 | returns the digest of the whole message |
| Sha2.Ctx.FinalSizes | cryptx2/src/cryptX2/hmac/sha2.c:398-402 | block count and bit length describe the padding of the whole message |
| Sha2.Ctx.PadBlock | cryptx2/src/cryptX2/hmac/sha2.c:402-406 | the buffered tail is followed by the padding and the length |
| Sha2.PaddingFits | cryptx2/src/cryptX2/hmac/sha2.c:398-406 | the chosen block count and the stored bit length amount to the padding, in one or two blocks |
| Sha2.AbsorbShort | cryptx2/src/cryptX2/hmac/sha2.c:364-369 | data that does not fill the block only extends the buffered tail |
| Sha2.AbsorbLong | cryptx2/src/cryptX2/hmac/sha2.c:371-385 | completing the block and hashing whole blocks keeps the context's meaning, with the counter modulo 2^32 |
| Sha2.AbsorbedFinish | cryptx2/src/cryptX2/hmac/sha2.c:404-408 | hashing tail and padding from the stored chaining value equals hashing the padded message from the start |
| Sha2.Ctx.CompressRolled | cryptx2/src/cryptX2/hmac/sha2.c:228-257 | the rolled loops compute the compression function of FIPS 180-2 section 6.2.2 |
| Sha2.Ctx.Exp | cryptx2/src/cryptX2/hmac/sha2.c:112-128 | one renamed round equals one round of the standard under the rotated names |
| Sha2.Ctx.EightRounds | cryptx2/src/cryptX2/hmac/sha2.c:286-317 | eight renamed rounds are eight rounds and bring all names back to their places |
| Sha2.Ctx.CompressUnrolled | cryptx2/src/cryptX2/hmac/sha2.c:258-323 | the unrolled body computes the same compression function |
| Sha2.Ctx.Transf | cryptx2/src/cryptX2/hmac/sha2.c:212-325 | all blocks are chained, with either body |
| Sha2.UnpackLength | cryptx2/src/cryptX2/hmac/sha2.c:58-64 | writes a 32-bit number big-endian: the four bytes are worth the number |
| Bytes.WorthBigEndian | cryptx2/src/cryptX2/hmac/sha2.c:58-64 | for every number and length, the bytes written are worth the number modulo 256^length |
| Bytes.BigEndianOfWorth | cryptx2/src/cryptX2/hmac/sha2.c:58-64 | and no other string of that length is worth it |
| Sha2Tables.RoundConstants64 | cryptx2/src/cryptX2/hmac/sha2.c:168-208 | the 80 constants are the first 64 bits of the fractional parts of the cube roots of the first 80 primes (FIPS 180-2 section 4.2.3) |
| Sha2Tables.InitialValues512 | cryptx2/src/cryptX2/hmac/sha2.c:144-148 | the initial value of SHA-512 is that of the square roots of the first eight primes (section 5.3.4) |
| Sha2Tables.InitialValues384 | cryptx2/src/cryptX2/hmac/sha2.c:138-142 | that of SHA-384 of the next eight (section 5.3.3) |
| Sha2Tables.InitialValues32 | cryptx2/src/cryptX2/hmac/sha2.c:130-148 | SHA-256 starts from the first, SHA-224 from the second halves of these words |
| Sha2Tables.SigmaImages64 | cryptx2/src/cryptX2/hmac/sha2.c:53-56 | where the four functions move the lowest and the highest bit of a 64-bit word |
| Sha2Tables.SigmaImages32 | cryptx2/src/cryptX2/hmac/sha2.c:48-51 | the same for 32 bits |
| Sha2Tables.Choices64 | cryptx2/src/cryptX2/hmac/sha2.c:45-46 | on 64-bit words ch selects by the bits of its first argument, maj takes the bit that at least two have, and sums are modulo 2^64 |
| Sha2Tables.Choices32 | cryptx2/src/cryptX2/hmac/sha2.c:45-46 | the same on 32-bit words |
| Sha2Tables.HighByteFirst | cryptx2/src/cryptX2/hmac/sha2.c:58-84 | both unpacking macros put the high-order byte first |
| Sha2Tables.PackUnpack64 | cryptx2/src/cryptX2/hmac/sha2.c:74-96 | packing and unpacking 64-bit words are inverse to each other |
| Sha2Suites.SuitesValid | cryptx2/src/cryptX2/hmac/sha2.c:130-208 | the 256 and 512 bit tables and word operations form valid suites |
| Sha2Suites.PackUnpack32 | cryptx2/src/cryptX2/hmac/sha2.c:58-72 | packing and unpacking words are inverse to each other |
| Fips180.BlocksAppend | cryptx2/src/cryptX2/hmac/sha2.c:225-227 | compressing a concatenation of whole blocks is compressing one part after the other |
| HmacSha2.CodeHmacIsStandard | cryptx2/src/cryptX2/hmac/hmac_sha2.c:126-197 | HMAC over the code's hash is HMAC over the standard's for texts and keys below the hash bound |
| HmacSha2.EquivalentKeys | cryptx2/src/cryptX2/hmac/hmac_sha2.c:136-157 | a short key gives the MACs of the same key with zeros up to a block, and a long one those of its hash |
| HmacSha2.HmacOfBlockKey | cryptx2/src/cryptX2/hmac/hmac_sha2.c:150-157 | with a key of one block, the text is hashed behind the key xored with 0x36, and the result behind the key xored with 0x5c |
| HmacSha2.HmacCtx.Init | cryptx2/src/cryptX2/hmac/hmac_sha2.c:126-171 | for keys shorter than, equal to and longer than a block, the contexts have absorbed the padded key of RFC 2104 |
| HmacSha2.HmacCtx.KeyUsed | cryptx2/src/cryptX2/hmac/hmac_sha2.c:136-148 | a key longer than a block is replaced by its hash |
| HmacSha2.HmacCtx.Reinit | cryptx2/src/cryptX2/hmac/hmac_sha2.c:173-179 | restores the saved contexts: a new text under the same key |
| HmacSha2.HmacCtx.Update | cryptx2/src/cryptX2/hmac/hmac_sha2.c:181-185 | appends to the text |
| HmacSha2.HmacCtx.Final | cryptx2/src/cryptX2/hmac/hmac_sha2.c:187-197 | returns the first bytes of RFC 2104's HMAC of the text, and keeps the saved contexts |
| HmacSha2.HmacRounds | cryptx2/src/cryptX2/hmac/hmac_sha2.c:126-197 | every round of reinit, updates and final on one context gives that round's MAC, and RFC 2104's HMAC over the standard hash below the length bound |
| HmacSha2.HmacSha256 | cryptx2/src/cryptX2/hmac/hmac_sha2.c:199-208 | the one-shot function returns the first bytes of HMAC-SHA-256 |
| Pbkdf2.Pbkdf2Func | cryptx2/src/cryptX2/pbkdf2.c:24-72 | every byte of the buffer is xored with the same byte of all of U_1 to U_1000, where U_1 is the HMAC under the password of the salt and block number 1, and every further U that of the one before (RFC 2898 section 5.2); bytes behind the block are kept |
| Pbkdf2.Iterate | cryptx2/src/cryptX2/pbkdf2.c:37-67 | one pass computes the next U, an HMAC under the password, and accumulates it in T |
| Pbkdf2.UChain | cryptx2/src/cryptX2/pbkdf2.c:40-56 | U_1 is the HMAC, with the password as key, of salt and block number, and U_j+1 that of U_j |
| Pbkdf2.TIsXor | cryptx2/src/cryptX2/pbkdf2.c:59 | byte k of T_c is the xor of byte k of U_1 to U_c |
| Pbkdf2.XorIntoZero | cryptx2/src/cryptX2/pbkdf2.c:68 | after the xor the buffer is the key if and only if it was zero before |
| Pbkdf2.XorFunc | cryptx2/src/cryptX2/Salt.c:84-92 | the word loop xors exactly 4 * len bytes, byte by byte |
| Sha256Block.RotateRightIsRotation | cryptx2/src/cryptX2/sha256.c:170-174 | with its mask of bits + 1 ones the function is still a rotation, for every count that occurs |
| Sha256Block.PaddedBlockIsStandard | cryptx2/src/cryptX2/sha256.c:150-168 | the block built is the padded message of FIPS 180-2 section 5.1.1 if and only if there are at most 13 words |
| Sha256Block.HashGlobals.PadTheMessage | cryptx2/src/cryptX2/sha256.c:150-168 | the in-place padding of the global block |
| Sha256Block.HashGlobals.CalculateHash | cryptx2/src/cryptX2/sha256.c:85-147 | compresses the padded block; up to 13 words the result is the SHA-256 digest of their bytes |
| Sha256Block.SingleBlockDigest | cryptx2/src/cryptX2/sha256.c:143-146 | one compressed padded block is the whole hash |
| Sha256Block.SameTables | cryptx2/src/cryptX2/sha256.c:33-61 | both implementations have the same constants |
| Sha256Block.RoundMeaning | cryptx2/src/cryptX2/sha256.c:123-141 | the in-place round is the round of the standard |
| Crc.CrcSlow | cryptx2/src/cryptX2/crc.c:94-136 | the bitwise loops compute the CRC function |
| Crc.CrcTable.CrcInit | cryptx2/src/cryptX2/crc.c:155-197 | entry i of the table is byte i after eight steps |
| Crc.CrcTable.CrcFast | cryptx2/src/cryptX2/crc.c:211-233 | with an initialised table the result is that of the bitwise form |
| Crc.TableStep | cryptx2/src/cryptX2/crc.c:222-227 | one table look-up replaces eight shift steps |
| Crc.StepLinear | cryptx2/src/cryptX2/crc.c:115-128 | the shift step is linear over GF(2) |
| Crc.StepsNonZero | cryptx2/src/cryptX2/crc.c:115-128 | the shift step is invertible: only zero becomes zero |
| Crc.CheckValue | cryptx2/src/cryptX2/crc.h:34-39 | the CRC of the ASCII digits 1 to 9 is the check value that the header gives |
| CrcDetection.BytesAreBits | cryptx2/src/cryptX2/crc.c:105-129 | feeding bytes is feeding their bits, high bit first |
| CrcDetection.DivisionInvariant | cryptx2/src/cryptX2/crc.c:105-129 | after every bit the register is the remainder of the bits so far |
| CrcDetection.CrcIsRemainder | cryptx2/src/cryptX2/crc.c:94-136 | a polynomial is the CRC if and only if it is the remainder of dividing the message, with 0xFFFF added to its first 16 bits and 16 zeros appended, by 0x11021 |
| CrcDetection.DividendBits | cryptx2/src/cryptX2/crc.c:94-104 | the polynomial divided is the message with its first 16 bits complemented and 16 zeros behind it |
| CrcDetection.TrailerIff | cryptx2/src/cryptX2/crc.c:94-136 | message and two trailing bytes leave remainder 0 if and only if the bytes are the big-endian CRC |
| CrcErrors.SameCrcIff | cryptx2/src/cryptX2/crc.c:94-136 | two messages of equal length have the same CRC if and only if the divisor divides their difference |
| CrcErrors.BurstDetected | cryptx2/src/cryptX2/crc.h:34-38 | a difference within 16 consecutive bits always changes the CRC |
| CrcErrors.BurstOf17 | cryptx2/src/cryptX2/crc.h:34-38 | for every message and place there is another message of the same length and with the same CRC that differs from it exactly by the polynomial, a burst of 17 bits, at that place |
| CrcErrors.BitsOfMessage | cryptx2/src/cryptX2/crc.c:105-129 | every string of whole bytes of bits is the bits of a message |
| CrcErrors.OddErrorDetected | cryptx2/src/cryptX2/crc.h:34-38 | an odd number of changed bits always changes the CRC |
| CrcErrors.DivisionKeepsParity | cryptx2/src/cryptX2/crc.c:115-128 | every step keeps the parity of register and remaining bits, because 0x11021 has an even number of terms |
| Gf2.RemainderUnique | cryptx2/src/cryptX2/crc.c:94-136 | a polynomial has one remainder: the division that the CRC is compared with is a function |
| Flash.Flashc.Memset64 | cryptx2/src/asf/avr32/drivers/flashc/flashc.c:723-879 | byte k of the area becomes pattern byte k mod 8 wherever it lies in the array or the User page; every other cell keeps its value |
| Flash.Flashc.RotateSource | cryptx2/src/asf/avr32/drivers/flashc/flashc.c:740-744 | the loop that stops early rotates the pattern to the alignment of the destination |
| Flash.Flashc.WriteOnePage | cryptx2/src/asf/avr32/drivers/flashc/flashc.c:767-872 | one pass programs the rest of one page and moves on, from the array to the User page if need be |
| Flash.Flashc.FillPage | cryptx2/src/asf/avr32/drivers/flashc/flashc.c:784-847 | head, body and tail double-words of the page buffer hold new data inside the area and old data outside |
| Flash.Flashc.MergeHead | cryptx2/src/asf/avr32/drivers/flashc/flashc.c:796-816 | the first double-word keeps its bytes before the destination |
| Flash.Flashc.MergeTail | cryptx2/src/asf/avr32/drivers/flashc/flashc.c:824-841 | the last double-word keeps its bytes from the end on |
| Flash.Flashc.Program | cryptx2/src/asf/avr32/drivers/flashc/flashc.h:755-792 | erase sets and write clears bits: the page takes the buffer, or its conjunction with the old content |
| Flash.WritesOnlyClear | cryptx2/src/asf/avr32/drivers/flashc/flashc.h:755-792 | after an erase the byte takes the value; without one no bit is set that was clear, and the others take the value |
| Flash.Flashc.Memset32 | cryptx2/src/asf/avr32/drivers/flashc/flashc.c:717-720 | fills with the 32-bit pattern twice |
| Flash.Flashc.Memset16 | cryptx2/src/asf/avr32/drivers/flashc/flashc.c:711-714 | fills with the 16-bit pattern four times |
| Flash.Flashc.Memset8 | cryptx2/src/asf/avr32/drivers/flashc/flashc.c:705-708 | fills with the byte of that value |
| Flash.Flashc.Memcpy | cryptx2/src/asf/avr32/drivers/flashc/flashc.c:882-943 | exactly the cells of the area take the source bytes; each page consumes at least one byte |
| Flash.Flashc.CopyDword | cryptx2/src/asf/avr32/drivers/flashc/flashc.c:910-925 | eight bytes of flash or of the source, byte by byte |
| Flash.CopyReadsBack | cryptx2/src/asf/avr32/drivers/flashc/flashc.h:791-792 | the copy reads back if and only if erase was requested or no bit had to be set |
| Flash.CopyToErased | cryptx2/src/asf/avr32/drivers/flashc/flashc.c:928-936 | without erase it reads back on cells that were all ones |
| Flash.FillIsCopy | cryptx2/src/asf/avr32/drivers/flashc/flashc.c:723-943 | filling is copying the repeated pattern |
| Fuses.FuseBank.SetBitfield | cryptx2/src/asf/avr32/drivers/flashc/flashc.c:560-574 | exactly the fuses of the field, counted modulo 64, take the bits of the value |
| Fuses.FuseBank.ReadBitfield | cryptx2/src/asf/avr32/drivers/flashc/flashc.c:437-440 | the number written by the fuses of the field, up to fuse 63 |
| Fuses.FuseBank.EraseBitfield | cryptx2/src/asf/avr32/drivers/flashc/flashc.c:462-475 | the fuses of the field become ones; the check succeeds if and only if the field ends by fuse 63 |
| Fuses.FuseBank.WriteBitfield | cryptx2/src/asf/avr32/drivers/flashc/flashc.c:513-527 | fuses of the field are cleared where the value has zeros |
| Fuses.ReadBackExactly | cryptx2/src/asf/avr32/drivers/flashc/flashc.c:437-440 | setting and reading back gives the low bits of the value if and only if the field ends by fuse 63 or the bits beyond are zero |
| Fuses.OtherFuses | cryptx2/src/asf/avr32/drivers/flashc/flashc.c:560-574 | fuses outside the field keep their values; a field past fuse 63 writes to the first fuses |
| Fuses.DigitsWorth | cryptx2/src/asf/avr32/drivers/flashc/flashc.c:560-574 | the fuses written represent the value modulo 2^width |
| Fuses.FuseBank.EraseByte | cryptx2/src/asf/avr32/drivers/flashc/flashc.c:478-495 | erasing all fuses and writing the other bytes back leaves only the chosen byte changed, and nothing for an index above 7; the check tells whether the byte reads as ones |
| Fuses.FuseBank.SetByte | cryptx2/src/asf/avr32/drivers/flashc/flashc.c:577-597 | the byte holds the value and the others are kept; for an index above 7 the value is only programmed |
| Fuses.FuseBank.WriteAll | cryptx2/src/asf/avr32/drivers/flashc/flashc.c:536-547 | every fuse is cleared where the value has a zero |
| Fuses.FuseBank.SetAll | cryptx2/src/asf/avr32/drivers/flashc/flashc.c:600-618 | all fuses hold the value |
| Fuses.FuseBank.ReadByte | cryptx2/src/asf/avr32/drivers/flashc/flashc.c:443-446 | the number written by the byte's fuses |
| Fuses.FuseBank.SetBootloaderProtectedSize | cryptx2/src/asf/avr32/drivers/flashc/flashc.c:358-371 | returns 0 for 0, otherwise the smallest supported size not below the request, or the largest size; all other fuses are kept |
| Fuses.FuseBank.GetBootloaderProtectedSize | cryptx2/src/asf/avr32/drivers/flashc/flashc.c:349-355 | page size shifted by the inverted field, or 0 |
| Fuses.BootCodeIsProtection | cryptx2/src/asf/avr32/drivers/flashc/flashc.c:361-369 | the exponent found by counting leading zeros selects the smallest sufficient size |
| Fuses.ClzBounds | cryptx2/src/asf/avr32/drivers/flashc/flashc.c:364 | leading zeros bound a word between two powers of two |
| EndpointProtocol.GoodRuns | cryptx2/src/asf/avr32/drivers/usbb/usbb_device.c:931-1050 | every run of requests, halts and interrupts keeps the protocol invariant |
| EndpointProtocol.GoodNext | cryptx2/src/asf/avr32/drivers/usbb/usbb_device.c:931-1101 | every single step keeps it |
| EndpointProtocol.BusyIsWaiterIffHalted | cryptx2/src/asf/avr32/drivers/usbb/usbb_device.c:931-1101 | in every run whose stores come while their tests hold, a busy endpoint holds a halt-cleared waiter exactly when it is halted or a stall is pending |
| EndpointProtocol.ReportedExactlyOnce | cryptx2/src/asf/avr32/drivers/usbb/usbb_device.c:1628-1642 | in every such run an accepted request with a callback is reported exactly once after it stops being the current job, never before; one without a callback never |
| EndpointProtocol.ClearHaltReports | cryptx2/src/asf/avr32/drivers/usbb/usbb_device.c:967-1006 | in every such run clearing a halt reports no transfer, and exactly the waiter if there is one |
| EndpointProtocol.StallTakesEffect | cryptx2/src/asf/avr32/drivers/usbb/usbb_device.c:931-1006 | in every run without a clear, a pending stall becomes a halt when the banks are empty and not before, a halt stays, and no transfer starts |
| EndpointProtocol.RefusedIff | cryptx2/src/asf/avr32/drivers/usbb/usbb_device.c:942-949 | in every such run a halt is refused exactly during a transfer, a transfer exactly when busy or not running |
| EndpointProtocol.RunStoreKeepsIff | cryptx2/src/asf/avr32/drivers/usbb/usbb_device.c:1024-1036 | the second half of a transfer request keeps the protocol if and only if no halt was set since its test |
| EndpointProtocol.WaitStoreKeepsIff | cryptx2/src/asf/avr32/drivers/usbb/usbb_device.c:1087-1095 | the store of a wait keeps the protocol if and only if the endpoint is still halted and no job has come up since the tests |
| EndpointProtocol.HaltStoreKeepsIff | cryptx2/src/asf/avr32/drivers/usbb/usbb_device.c:942-962 | the store of a halt keeps the protocol if and only if no transfer has come up since the test |
| EndpointProtocol.GoodMoves | cryptx2/src/asf/avr32/drivers/usbb/usbb_device.c:931-1101 | every run in which interrupts step between tests and stores keeps the protocol, as long as each store comes while its test still holds |
| EndpointProtocol.StepsAreMoves | cryptx2/src/asf/avr32/drivers/usbb/usbb_device.c:931-1101 | runs of uninterrupted requests are among these runs |
| EndpointProtocol.LostWaiter | cryptx2/src/asf/avr32/drivers/usbb/usbb_device.c:1091-1095 | after a wait was stored on an endpoint whose halt is gone, no later halt, clear, wait, transfer or interrupt changes anything: until the endpoint is aborted or freed, the waiter is not called and no request accepted |
| EndpointProtocol.WaiterCanBeLost | cryptx2/src/asf/avr32/drivers/usbb/usbb_device.c:1091-1095 | a halt seen by the test and cleared before the store leads there |
| EndpointProtocol.LogGrows | cryptx2/src/asf/avr32/drivers/usbb/usbb_device.c:1628-1642 | reports are never withdrawn and a step adds at most one |
| UsbEndpoint.Endpoint.SetHalt | cryptx2/src/asf/avr32/drivers/usbb/usbb_device.c:931-964 | job record and registers make the protocol's halt step and return whether it was accepted |
| UsbEndpoint.Endpoint.ClearHalt | cryptx2/src/asf/avr32/drivers/usbb/usbb_device.c:967-1006 | makes the protocol's clear step; the shared callback word holds a halt-cleared callback when it is called |
| UsbEndpoint.Endpoint.WaitStallClear | cryptx2/src/asf/avr32/drivers/usbb/usbb_device.c:1070-1101 | makes the protocol's wait step, calling back at once on an endpoint that is not halted |
| UsbEndpoint.Endpoint.Run | cryptx2/src/asf/avr32/drivers/usbb/usbb_device.c:1009-1050 | accepted exactly when enabled, idle and not halted; then the first chunk is started exactly if there is something to move and no end of transfer was recorded, and otherwise the transfer ends or waits for its zero-length packet |
| UsbEndpoint.Endpoint.FinishJob | cryptx2/src/asf/avr32/drivers/usbb/usbb_device.c:1628-1642 | ends the job and reports it if it has a callback |
| UsbEndpoint.Endpoint.StartChunk | cryptx2/src/asf/avr32/drivers/usbb/usbb_device.c:1658-1712 | the next chunk follows the last one, is at most 65536 bytes, stays in the buffer, and the registers describe it; on an IN endpoint the short packet is enabled exactly if the chunk's length is no multiple of the packet size, and such a chunk takes back the zero-length packet even when a recorded end keeps it from being started |
| UsbEndpoint.Endpoint.TransDone | cryptx2/src/asf/avr32/drivers/usbb/usbb_device.c:1644-1734 | starts a chunk exactly if data is left and no end was recorded; otherwise waits for the zero-length packet exactly if one was asked for and every chunk prepared was whole, or ends the job |
| UsbEndpoint.Endpoint.DmaDone | cryptx2/src/asf/avr32/drivers/usbb/usbb_device.c:1755-1768 | the next chunk is started exactly if the counter shows this one complete, the buffer is not used up and no end was recorded; the bytes left strictly decrease; otherwise the transfer ends with the size shown, or waits for its zero-length packet |
| UsbEndpoint.Endpoint.Interrupt | cryptx2/src/asf/avr32/drivers/usbb/usbb_device.c:1737-1796 | every event is a protocol step or none: the end of a chunk continues or ends the transfer as above, the zero-length packet ends it, an empty bank makes a pending stall effective |
| UsbEndpoint.Endpoint.DrainDma | cryptx2/src/asf/avr32/drivers/usbb/usbb_device.c:1747-1769 | whatever the hardware does with each chunk, a transfer leaves the DMA after finitely many interrupts, in the state that its specification gives |
| UsbEndpoint.Endpoint.Complete | cryptx2/src/asf/avr32/drivers/usbb/usbb_device.c:1009-1050 | request and interrupts of a whole transfer: it ends as its specification says for any behaviour of the hardware; if every chunk is moved completely, exactly the bytes asked for are moved and reported, and the transfer waits for a zero-length packet exactly if one was asked for on an IN endpoint and no packet was short; below 65536 bytes the size reported is the number of bytes moved |
| UsbEndpoint.Endpoint.RunCalls | cryptx2/src/asf/avr32/drivers/usbb/usbb_device.c:931-1101 | any sequence of API calls and interrupts is a run of the protocol, in which every call makes its own step and an interrupt at most one |
| UsbEndpoint.ExactIffBelowMaximum | cryptx2/src/asf/avr32/drivers/usbb/usbb_device.c:1756-1766 | the size reported is exact in every run if and only if the transfer is shorter than 65536 bytes |
| UsbEndpoint.SilentChunk | cryptx2/src/asf/avr32/drivers/usbb/usbb_device.c:1756-1766 | for every size from 65536 on there is a run that moves nothing and reports 65536 bytes |
| UsbEndpoint.OutcomeZlp | cryptx2/src/asf/avr32/drivers/usbb/usbb_device.c:1679-1722 | a transfer whose chunks are all moved is followed by a zero-length packet exactly if one was asked for and its size, and that of the maximal chunk if there is one before the last, are multiples of the packet size |
| UsbEndpoint.DrainedMovesAll | cryptx2/src/asf/avr32/drivers/usbb/usbb_device.c:1747-1769 | chunks that are all moved completely move exactly the buffer |
| UsbEndpoint.DrainedSmall | cryptx2/src/asf/avr32/drivers/usbb/usbb_device.c:1756-1766 | a transfer below 65536 bytes never has a chunk whose count wraps |
| UsbEndpoint.ChunksDisjoint | cryptx2/src/asf/avr32/drivers/usbb/usbb_device.c:1696 | chunks of a transfer are disjoint and inside its buffer |
| UsbEndpoint.ChunkStarts | cryptx2/src/asf/avr32/drivers/usbb/usbb_device.c:1660-1698 | length field and short-packet bookkeeping of a new chunk are right |
| UsbEndpoint.ChunkEnds | cryptx2/src/asf/avr32/drivers/usbb/usbb_device.c:1756-1766 | subtracting the 16-bit count leaves the bytes moved, plus 65536 for a full chunk that moved none |
| UsbEndpoint.FieldFits | cryptx2/src/asf/avr32/drivers/usbb/usbb_device.h:551 | zero in the length field stands for the maximum, and every length is recovered |
| UsbControl.ControlIn.InSent | cryptx2/src/asf/avr32/drivers/usbb/usbb_device.c:1289-1370 | the phase ends exactly when all bytes requested or a short packet have been sent, with all deliverable bytes in full packets and a last one; otherwise the next packet follows unless the host aborts, and the flag says whether that packet is short, sent or not |
| UsbControl.ControlIn.SetupIn | cryptx2/src/asf/avr32/drivers/usbb/usbb_device.c:1263-1268 | the first packet is sent, or the phase ends at once exactly if the first buffer is empty and nothing was requested or the flag was set before; afterwards the flag says whether the first packet is short, sent or not |
| UsbControl.ControlIn.Request | cryptx2/src/asf/avr32/drivers/usbb/usbb_device.c:1289-1370 | a whole IN request of a host that takes every packet: it receives exactly what the buffers deliver, in exactly the packets that this takes, with a zero-length packet exactly if nothing else shows the end; no packet is sent exactly for an empty first buffer with nothing requested or the flag set before, and the flag afterwards says whether the last packet was short |
| UsbControl.ControlIn.EmptyAfter | cryptx2/src/asf/avr32/drivers/usbb/usbb_device.c:1291-1322 | after a request that sent packets, one with an empty first buffer is sent none exactly if nothing is requested or the first one ended with a short packet |
| UsbControl.ControlIn.EmptyAfterAbort | cryptx2/src/asf/avr32/drivers/usbb/usbb_device.c:1335-1356 | after a request aborted before its first packet, one with an empty first buffer is sent no packet exactly if nothing is requested or the packet not sent was short |
| UsbControl.ControlIn.EndOfBuffer | cryptx2/src/asf/avr32/drivers/usbb/usbb_device.c:1310-1333 | at the end of a buffer the phase ends, takes the next buffer, or is left to a zero-length packet |
| UsbControl.ControlIn.SendPacket | cryptx2/src/asf/avr32/drivers/usbb/usbb_device.c:1334-1369 | the rest of the buffer up to the packet size is sent, unless an OUT packet has arrived |
| UsbControl.OverIffComplete | cryptx2/src/asf/avr32/drivers/usbb/usbb_device.c:1311-1322 | the code's test for the end is the standard's (section 5.5.3 of USB 2.0) |
| UsbControl.PhaseDelivers | cryptx2/src/asf/avr32/drivers/usbb/usbb_device.c:1289-1370 | a finished phase has sent every buffer up to the first one that does not fill its last packet |
| UsbControl.PacketSent | cryptx2/src/asf/avr32/drivers/usbb/usbb_device.c:1323-1362 | every packet keeps the order: all but the last are full, and their bytes are those of the buffers |
| UsbControl.DeliverPrefix | cryptx2/src/asf/avr32/drivers/usbb/usbb_device.c:1323-1333 | buffers that fill their packets are delivered one after the other |
| PllClock.PowerManager.ConfigureClocks | cryptx2/src/asf/avr32/drivers/pm/pm_conf_clocks.c:59-223 | succeeds if and only if some divider up to 31 and multiplier reach the request exactly; then the registers yield exactly the CPU frequency asked for, the multiplier and divider are those of the first divider that works with all powers of two moved and the multiplier doubled as often as range and field allow, and the bus frequency is the one chosen |
| PllClock.FindDivider | cryptx2/src/asf/avr32/drivers/pm/pm_conf_clocks.c:96-104 | the smallest divider that clears the remainder, or 32 |
| PllClock.ZeroRequestLoops | cryptx2/src/asf/avr32/drivers/pm/pm_conf_clocks.c:118-128 | for a CPU request of zero the guard of the VCO loop holds at every pass and its break is never taken |
| PllClock.HalveDivider | cryptx2/src/asf/avr32/drivers/pm/pm_conf_clocks.c:111-116 | powers of two move from the divider to the prescaler |
| PllClock.RaiseVco | cryptx2/src/asf/avr32/drivers/pm/pm_conf_clocks.c:118-128 | the multiplier is doubled until the range or the field forbids it, and no further: once doubled, the VCO stays below the range's maximum |
| PllClock.SolutionUnique | cryptx2/src/asf/avr32/drivers/pm/pm_conf_clocks.c:96-139 | the multiplier, the divider and the PLL's halving are determined by the request |
| PllClock.FindPba | cryptx2/src/asf/avr32/drivers/pm/pm_conf_clocks.c:158-166 | terminates with a shift of at most 31 and the frequency specified by PbaChoice |
| PllClock.FoundExactly | cryptx2/src/asf/avr32/drivers/pm/pm_conf_clocks.c:96-109 | the first divider succeeds if and only if any divider and multiplier do |
| PllClock.SettingExact | cryptx2/src/asf/avr32/drivers/pm/pm_conf_clocks.c:111-139 | moving powers of two keeps the frequency exact |
| PllClock.PllExact | cryptx2/src/asf/avr32/drivers/pm/pm_conf_clocks.c:130-139 | both final divisions are exact and give back the request |
| PllClock.PbaBest | cryptx2/src/asf/avr32/drivers/pm/pm_conf_clocks.c:158-169 | the bus frequency is the largest one not above the request if and only if the PLL reaches the request |
| PllClock.PbaWithinLimit | cryptx2/src/asf/avr32/drivers/pm/pm_conf_clocks.c:158-169 | the bus frequency stays within the limit if and only if no halving of the PLL frequency lies between the limit and the request; always for a request up to one above the limit |
| PllClock.PbaOverLimit | cryptx2/src/asf/avr32/drivers/pm/pm_conf_clocks.c:158-169 | PLL 192, request 100 and limit 66 give 96 |
| Passcode.SymbolStored | cryptx2/src/tc_task.c:476-485 | storing changes exactly the addressed symbol |
| Passcode.StoredWord | cryptx2/src/tc_task.c:476-485 | storing is the or of the press, shifted by twice the low four bits of the position, into the word that the high bits select |
| Passcode.SlotIsBits | cryptx2/src/tc_task.c:476-485 | symbol k of a word is its bits 2k and 2k + 1 |
| Passcode.EncodeWrites | cryptx2/src/tc_task.c:476-485 | up to 127 presses and a terminator leave the one buffer whose symbols are the numbers of the presses, the terminator and zeros |
| Passcode.EncodedSymbols | cryptx2/src/tc_task.c:476-485 | up to 128 presses occupy their own positions and the rest stays clear |
| Passcode.DecodeEncode | cryptx2/src/tc_task.c:597-617 | up to 127 presses and the terminator can be decoded: the last symbol that is not zero is the terminator |
| Passcode.SamePassIffEqual | cryptx2/src/tc_task.c:670-683 | with at most 127 presses each, the buffers are equal if and only if the sequences are |
| Passcode.LosslessExactly | cryptx2/src/tc_task.c:476-485 | lossless up to n presses if and only if n is at most 127 |
| Passcode.ComparePasswords | cryptx2/src/tc_task.c:670-683 | true if and only if the two buffers are equal |
| TickMachine.Handler.Tick | cryptx2/src/tc_task.c:212-274 | the state after one interrupt, mode by mode: without a mode the counters count held combinations and one that has been held long enough enters its mode; in programming mode the first press chooses what is set and later ones advance the double entry; in normal mode symbols are stored, and from the enter press on the buffer is ended and compared, which alone unlocks; the press is the one that the pins and the last release determine |
| TickMachine.Handler.HandleTicks | cryptx2/src/tc_task.c:212-274 | over any run presses are never in consecutive ticks, the phase is that of the protocol on the debounced pin levels, and from zero counters the last tick enters a mode exactly if it is the first to end 101 or 201 ticks in a row of a combination |
| TickMachine.Handler.EnterTwice | cryptx2/src/tc_task.c:591-661 | from the pins: if they debounce to two sequences with at most 127 symbols, each ended by enter, the status shows acceptance exactly if the same buttons were pressed in both, or if the mode stores no symbols |
| TickMachine.LogInAfterReset | cryptx2/src/tc_task.c:212-274 | from reset and from the pins: once a row of ticks has entered normal mode, a password and enter unlock the device exactly if the buffer that writes the numbers of the buttons pressed, and a terminator, is accepted in the last tick |
| TickProtocol.ModeEnteredFirst | cryptx2/src/tc_task.c:520-584 | over any run from zero counters, a mode is entered in the first tick that ends 101 ticks in a row of the programming combination or 201 of another, and in no earlier one; until then each counter is the length of its row |
| TickProtocol.LogIn | cryptx2/src/tc_task.c:226-238 | from a state without a mode: normal mode entered by a row of ticks, then a password and enter; the comparison sees what was typed before, the password and a terminator |
| TickProtocol.FirstCheck | cryptx2/src/tc_task.c:685-696 | in normal mode nothing is compared before the enter press, and the comparison made with it sees every symbol typed |
| TickProtocol.LaterChecks | cryptx2/src/tc_task.c:685-696 | for the unlock password, after the enter press every tick compares again: the device is unlocked exactly if it was, or one of the buffers with one more terminator per tick is accepted |
| TickProtocol.RoundLeaves | cryptx2/src/tc_task.c:591-661 | setting a password, as a whole: two equal entries and a last enter end the mode and leave in the buffer, for the unlock password, the last presses and a terminator, and otherwise nothing |
| TickProtocol.SeenAlone | cryptx2/src/tc_task.c:226-238 | up to 127 presses in all, the buffer compared is that of the password alone if and only if nothing was typed before |
| TickProtocol.DebounceSnoc | cryptx2/src/tc_task.c:303-465 | a tick adds the first low button if all buttons were high before, and is a release exactly if all are high |
| TickMachine.Handler.ButtonPressed | cryptx2/src/tc_task.c:303-465 | registers the first low button if all were released since the last press, is released afterwards exactly if all are high, and remembers every enter |
| TickMachine.Handler.ReadButton | cryptx2/src/tc_task.c:317-387 | in programming mode the button selects the mode or is taken by the protocol; in normal mode its symbol is stored at the next position, and enter marks the password as entered |
| TickMachine.Handler.StorePasscode | cryptx2/src/tc_task.c:476-485 | writes through the pointer, which is set, and wraps the index at 128 |
| TickMachine.Handler.SettleLastPress | cryptx2/src/tc_task.c:591-661 | starts, continues or compares; a mismatch goes back to the start, where both buffers are cleared before a symbol is stored |
| TickMachine.Handler.ReadPassword | cryptx2/src/tc_task.c:685-696 | stores the symbol of the button; once enter has been pressed, also a terminator, and unlocks exactly if that buffer is accepted |
| TickMachine.Handler.EnterMode | cryptx2/src/tc_task.c:226-238 | each counter counts the ticks in a row of its combination; programming mode is entered in the 101st, normal mode in the 201st, which also selects what is unlocked, and entering clears all counters |
| TickMachine.Handler.CheckProgrammingSequence | cryptx2/src/tc_task.c:520-541 | true exactly in the 101st tick in a row of buttons 1, 3 and 4 alone, which also marks the buttons as not released |
| TickMachine.Handler.CheckNormalSequence | cryptx2/src/tc_task.c:543-584 | true exactly in the 201st tick in a row of enter with button 4 alone or with button 2 alone; the combination selects the normal mode |
| TickMachine.Handler.CheckToToggle | cryptx2/src/tc_task.c:282-296 | when unlocked, buttons 1 and 2 flip the two read-only flags; a second look at the buttons in the same tick registers nothing new |
| TickProtocol.DoubleEntry | cryptx2/src/tc_task.c:591-661 | for all ticks of the two entries, the second enter press is followed by acceptance exactly if both left the same buffer |
| TickProtocol.AcceptedIffEqual | cryptx2/src/tc_task.c:591-683 | with at most 127 symbols each, accepted if and only if the same buttons were pressed in both entries, or the mode stores none |
| TickProtocol.SymbolsAreButtons | cryptx2/src/tc_task.c:353-367 | the symbols stored are the numbers of the buttons pressed, in their order |
| TickProtocol.SameSymbols | cryptx2/src/tc_task.c:353-367 | two runs store the same symbols if and only if the same buttons were pressed |

## Left out

- AES, LEDs, LCD, register drivers, board start-up, clock headers: peripherals whose effect the code cannot see.
- Real time, interrupt latency and busy waiting: ready flags are taken to arrive and flash commands to succeed, so the error status that the flash functions collect is not modelled.
- The page size is a parameter, any multiple of 8; that `Align_down` rounds to it needs a power of two. The User page is one page long, as its erase and write commands assume; flash size and the User page's address are parameters.
- Flash.Flashc.Memset64: the area must end below 2^32, as a C object does.
- Flash.Flashc.Memcpy: the source is a value, as when it lies in RAM; a source inside the flash pages being written is not modelled.
- Flash.Flashc.Memset32: the or of the two non-overlapping halves is written as a sum, here and in the 16 and 8 bit variants.
- Sha2.Ctx.Update: the buffered length and the new length must fit an unsigned 32-bit word together.
- HmacSha2.HmacSha256: stated for keys and texts below the 2^29-byte bound of the hash.
- Sha256Block.HashGlobals.CalculateHash: inputs of 16 words or more leave the global block and are not modelled.
- Fuses.FuseBank.ReadBitfield: a width of 64 shifts a 64-bit one by 64, which C leaves undefined; widths below 64 are modelled.
- The lock bits, the security bit and the checks of single-bit and whole-bank fuse erasure are not modelled.
- Endpoint allocation, freeing, abort and kill, and several endpoints sharing one interrupt: one endpoint is modelled. Callbacks that call back into the driver are later steps, because every callback is the last action of its function.
- UsbEndpoint.ExactIffBelowMaximum: the counter of bytes not moved is taken to have the 16 bits of the length field, in which zero stands for 65536; the device header that defines both is not part of this model.
- UsbEndpoint.Endpoint.Interrupt: the hardware is taken never to leave more bytes of a chunk than the chunk has.
- The OUT data phase, stalls and over- or underflow of the control endpoint; `udc_process_setup` and the payload callbacks are parameters.
- UsbControl.ControlIn.SetupIn: payload buffers together are at most wLength bytes long, and buffers supplied later are not empty, as the USB device core provides.
- PllClock.PowerManager.ConfigureClocks: stated where no product leaves 32 bits and the CPU request is positive; oscillator switching, lock waiting and wait states are not modelled.
- The reflecting variants of the CRC and `reflect` itself: crc.h selects CRC-CCITT, which does not reflect.
- TickMachine.Handler.ReadPassword: whether a buffer is accepted, which for the unlock password goes through the AES hardware, is a parameter of each tick; salts, random numbers and storing to flash are not modelled beyond their effect on the password buffers.
- TickProtocol.LaterChecks: stated for the unlock password; after the first comparison of a device id the buffer also takes the salt in every tick, which the contract of `Tick` states tick by tick.
- `store_sequence`, its unbounded frame number, and the unused total of presses.
