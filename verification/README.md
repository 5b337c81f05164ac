# A verified model of the Modbus security layer

The repository protects Modbus RTU with LEA in counter mode and HMAC-LSH-256, under counters that are
never transmitted: each end keeps its own. This project models, in Dafny 4.11, the frame layer, its
counter bookkeeping, the ciphers and hashes below it and the Modbus request handler above it, and proves
what they promise.

What is imperative in the C source is imperative here: contexts are classes with the fields of the C
structures, loops keep their order and work on arrays where the source does, also when the output array is
the input array. Each is proved against a specification function, and the laws of those functions are
lemmas. Block modes, GCM, CMAC, frames and the channel are proved over any block function and any keyed
hash; `Instance` puts LEA and HMAC-LSH-256 in their place.

| files | subject |
|---|---|
| `Bytes`, `Words`, `Pieces` | octet strings, blocks, words, texts cut into pieces |
| `GfMul`, `GfTables`, `Ghash` | the product in GF(2^128), its three multipliers and their tables, GHASH |
| `Gcm`, `GcmContext`, `GcmMessage` | section 7.1 of NIST SP 800-38D, the incremental context, whole messages |
| `GfAlgebra`, `GcmLimits` | laws of the product, and where the library's GCM and the standard part |
| `Counter`, `Ctr`, `Modes`, `ModeLoops` | the 128-bit counter, the modes of NIST SP 800-38A, their batched and backward loops |
| `Online`, `OnlineContext`, `OnlineMessage`, `ModeBlocks` | the buffered cipher with padding, and its output block by block |
| `Cmac` | section 6 of NIST SP 800-38B |
| `Lea`, `LeaKeys` | the unrolled cipher, and the key schedule for keys of 16 octets |
| `Lsh256`, `LshHash`, `LshContext`, `LshMessage`, `Hmac` | LSH-256 on bit strings and HMAC |
| `LshWords`, `LshVectors` | LSH-256 word by word, with its numbers and constants, and known values |
| `KeyStore`, `StateFile`, `CtrState`, `Reservations`, `LeaCtr` | counters, their file, and runs with restarts |
| `Crc`, `CrcErrors`, `SecureFrame`, `Channel` | the cyclic redundancy check and what it misses, one frame, two endpoints and a line |
| `ModbusPdu`, `ModbusRuns`, `ModbusServer`, `ModbusOctets` | requests, replies and the four tables, also said on octets and numbers alone |

## Main results

- The 4-bit and 8-bit table multipliers compute the bit-serial product for every pair of blocks
  (`Gfmul4`, `Gfmul8`, `GfmulBits`). GCM in arbitrary pieces, on a new or used context, in place or not, gives
  the standard's ciphertext, and a tag of any length the library takes exactly under a stated condition on what
  earlier messages left behind (`SealPieces`, `OpenPieces`, `RoundTrip`).
- The counters of both ends stay together over every run in which each genuine frame arrives once and in
  order, whatever foreign frames, other traffic and restarts come between (`InOrderDelivery`,
  `AgreeWhenQuiet`).
- No counter block is reserved for two messages of a slot, across restarts that find the slot's entry in the
  file (`NonReuse`). Over every run without a reset of the slot, whatever saves fail, some block is reserved twice
  if and only if the slot is reserved for after a restart or reload that lost a reservation of it
  (`ReuseExactly`, `KeyStreamReuse`).
- Buffered encryption and decryption in arbitrary pieces are the one-shot modes, and padded texts come back
  (`CryptPieces`, `CryptBlocks`, `PaddedRoundTrip`).
- LEA decryption inverts encryption, the LSH-256 compression is the definition's and a bijection, and
  hashes and MACs over pieces are those of the whole (`CipherIsInverted`, `CompressInPlace`,
  `CompressIsBijective`, `HashPieces`, `HmacPieces`, `TagPieces`).
- The check of a frame misses exactly the errors that are multiples of x^16 + x^15 + x^2 + 1 (`Undetected`), so that
  it detects every burst of up to 16 bits (`BurstDetected`). The Modbus tables always hold what was last written
  (`LatestWrites`).
- The definitions themselves are pinned by statements that do not use them: with a 12-octet IV octet j of a text meets
  E(IV, 2 + j div 16) and the hash meets E(IV, 1) (`SealWith96BitIv`); a frame is described by its octets and the two
  keys of its slot (`EncryptAndBuild`, `ReceivedOctets`); the modes block by block (`RunBlock`, `CryptPieces`); every
  Modbus request by its octets (`EveryRequestHandled`). Known values of LSH-256, of its stored initial values, of LEA
  and of the check are computed (`DigestOfAbc`, `StoredInitialValues`, `Lea128Vector`, `CheckValue`).

## Where the code differs from what it follows

- The counter of GCM is incremented in all 128 bits, not the low 32 of section 6.2 of NIST SP 800-38D.
  `IncAgrees` and `CountersAgree` say when the counters agree, `SealIsCtrExactly` when the ciphertexts do under a
  block cipher: exactly while the whole blocks have room above the low word of the pre-counter block and the key
  blocks after them agree in the octets of a partial last block. With a 12-octet IV there always is room
  (`RoomFor96BitIv`); `CounterFails` is a cipher, a 16-octet IV and every text of one block for which the
  ciphertext is wrong.
- The length of the additional data survives the end of a GCM message, multiplied by eight (`Final`). It
  matters for a message without any; a tag is then the standard's exactly when the surplus in the last block times
  the hash key is zero in the octets of the tag (`SealPieces`, `StaleLength`). `StaleTag` follows one octet of
  additional data to a wrong tag under every hash key but zero.
- Of additional data given in two calls only the second part is counted (`SealInTwoParts`, with the exact
  condition for a first part of whole blocks).
- gcm_dec over its own input hashes the text it has just written. Whether the tag is accepted depends on the key
  stream alone (`TextsAgree`, `RoundTrip`); `InPlaceRejects` is a failing input.
- lea_online_update over its own input keeps the wrong chaining value in CBC and CFB decryption, unless the
  last ciphertext block is its own text (`UpdateInPlace`). Two such calls give the text exactly when the first
  block of the second cannot tell (`TwoCallsInPlace`); `InPlaceGoesWrong` is a failing input for every cipher.
- With octets waiting it also overwrites input it has not read, as soon as more than a block comes together
  (`UpdateWaiting`); `WaitingFails` is a failing input for every mode, cipher and chaining value.
- The limit in the padding check is 0x16 where 16 is meant, and zero is let through (lea_online.c, lines 301
  and 329). `StripAgrees` gives the exact condition under which the check agrees with PKCS #5;
  `ZeroPaddingAccepted` is a case where it does not.
- The comment in ctr_state.h promises that a restart never reuses a counter. `ReuseExactly` says when it does:
  when it, or a reload, comes after a reservation of the slot that no good save followed, and the slot is used
  again. `FailedSaveReuses` is the shortest such run.
- Two octets of authentic ciphertext that decrypt to FF FF pass the check, and the PDU length becomes
  negative (`TwoOctetsAccepted`). Such frames exist at every counter, and no sender builds one
  (`UnderflowExists`); the receiver's contract excludes exactly them (`Underflows`).
- An initialisation of LSH that fails leaves its type in the object. Unless that type is 0 or its length above
  32, update and final then succeed from the chaining value that was there (`AfterFailedInit`); with a length
  field of 0 and unused bits, final changes the octet before the digest buffer (`Delivered`).

## Model

| member | source | states |
|---|---|---|
| `GfMul.Table4Correct` | crypto/lea_ref/lea_gcm_generic.c:72-75 | every entry of the 16-entry reduction table is the correction of four multiplications by x |
| `GfMul.Table8Correct` | crypto/lea_ref/lea_gcm_generic.c:194-227 | every entry of the 256-entry reduction table is the correction of eight multiplications by x |
| `GfMul.PowerIsShifted` | crypto/lea_ref/lea_gcm_generic.c:127-138 | multiplying by x up to eight times is one shift of the whole block plus a correction of its first two octets |
| `GfMul.PowerLinear` | crypto/lea_ref/lea_gcm_generic.c:229-250 | multiplication by a power of x is linear over GF(2), which lets tables be filled by sums |
| `GfTables.MulIsHorner` | crypto/lea_ref/lea_gcm_generic.c:252-272 | the bit-serial product of section 6.3 of NIST SP 800-38D is the octet-wise Horner evaluation |
| `GfTables.GfmulBits` | crypto/lea_ref/lea_gcm_generic.c:9-33 | the bit-serial loop leaves the product of section 6.3 of NIST SP 800-38D in its array, which may be its input |
| `GfTables.InitTable8` | crypto/lea_ref/lea_gcm_generic.c:229-250 | after the doubling loops entry n of the table is the product of octet n with h, for all 256 |
| `GfTables.FillRows` | crypto/lea_ref/lea_gcm_generic.c:245-249 | one pass of the inner loop turns a table correct below i into one correct below 2i |
| `GfTables.Gfmul8` | crypto/lea_ref/lea_gcm_generic.c:252-272 | the 8-bit table multiplier leaves the same product as the bit-serial one |
| `GfTables.InitTable4` | crypto/lea_ref/lea_gcm_generic.c:77-113 | the sixteen entries are the products of every half octet with h |
| `GfTables.Gfmul4` | crypto/lea_ref/lea_gcm_generic.c:115-153 | the 4-bit table multiplier leaves the same product as the bit-serial one |
| `GfTables.TimesX8` | crypto/lea_ref/lea_gcm_generic.c:263-266 | shift by eight and table reduction multiply by x^8 |
| `GfTables.TimesX4` | crypto/lea_ref/lea_gcm_generic.c:127-130 | shift by four and table reduction multiply by x^4 |
| `GfAlgebra.MulLinear` | crypto/lea_ref/lea_gcm_generic.c:9-33 | the product is linear in its left factor |
| `GfAlgebra.UnitProduct` | crypto/lea_ref/lea_gcm_generic.c:9-33 | a block with one bit set is a power of x, and its product with h is zero for h zero only |
| `GfAlgebra.MulOne` | crypto/lea_ref/lea_gcm_generic.c:9-33 | the block with only the first bit set is the one of the field |
| `Ghash.GhashLoop` | crypto/lea_ref/lea_gcm_generic.c:274-297 | the loop over whole blocks and the partial last one is GHASH of section 6.4 of NIST SP 800-38D from the running value |
| `Ghash.HashConcat` | crypto/lea_ref/lea_gcm_generic.c:274-297 | hashing in two calls is hashing the concatenation when the first part has whole blocks |
| `Ghash.HashPadded` | crypto/lea_ref/lea_gcm_generic.c:288-294 | leaving out the zero padding of a partial block does not change the hash |
| `Gcm.IncAgrees` | crypto/lea_ref/lea_ctr.h:5-16 | the 128-bit increment of the library equals the 32-bit increment of section 6.2 of NIST SP 800-38D exactly while the low word is not all ones |
| `Gcm.CountersAgree` | crypto/lea_ref/lea_ctr.h:18-36 | over n steps the two counters agree exactly when the low word does not run over |
| `Gcm.GctrIsCtr` | crypto/lea_ref/lea_gcm.h:101-122 | GCTR of section 6.5 of NIST SP 800-38D is the library's counter mode as long as the low word does not run over |
| `GcmContext.GcmContext.constructor` | crypto/lea_ref/lea_gcm_generic.c:299-309 | a fresh context holds the correct table for the encrypted zero block and cleared registers |
| `GcmContext.GcmContext.SetCtr` | crypto/lea_ref/lea_gcm.h:4-42 | the registers afterwards are those of an empty message under the pre-counter block of section 7.1 of NIST SP 800-38D, for IVs of 12 and of any other length |
| `GcmContext.GcmContext.HashIv` | crypto/lea_ref/lea_gcm.h:24-37 | the loop and the length block compute the pre-counter block of an IV that is not 12 octets long |
| `GcmContext.GcmContext.SetAad` | crypto/lea_ref/lea_gcm.h:44-58 | before the text the additional data so far, padded, and then the new ones are part of the message, and the new length replaces the old; at any time the hash goes on and an empty call changes nothing |
| `GcmContext.GcmContext.Enc` | crypto/lea_ref/lea_gcm.h:60-122 | into another buffer or in place, one piece of text gives the key stream's continuation at its position, and the half-used block, counter and hash stay those of the ciphertext so far |
| `GcmContext.GcmContext.Dec` | crypto/lea_ref/lea_gcm.h:124-188 | the same for decryption, where what is hashed is what the ciphertext buffer holds in the end: the ciphertext, or the text when the buffers are the same |
| `GcmContext.GcmContext.Final` | crypto/lea_ref/lea_gcm.h:191-254 | the truncated tag of section 7.1 of NIST SP 800-38D is written, or compared with 0 exactly for equality; the registers are cleared but the length of the additional data becomes eight times itself and stays |
| `GcmLimits.RoomFor96BitIv` | crypto/lea_ref/lea_gcm.h:17-21 | with a 12-octet IV a text of less than 2^28 octets never overruns the low counter word |
| `GcmLimits.CounterOf96BitIv` | crypto/lea_ref/lea_gcm.h:17-41 | after n more blocks the counter of a 12-octet IV is the IV followed by the number 1 + n in four octets |
| `GcmLimits.TextOf96BitIv` | crypto/lea_ref/lea_gcm.h:17-122 | octet j of a text is combined with octet j mod 16 of the encryption of the IV and the number 2 + j div 16 |
| `GcmLimits.OddPreCounter` | crypto/lea_ref/lea_gcm.h:22-37 | a known pre-counter block for a 16-octet IV under the hash key one |
| `GcmLimits.SealIsCtr` | crypto/lea_ref/lea_gcm.h:101-122 | with room above the low counter word the standard's ciphertext and tag are the library's key stream and tag, for texts of any length |
| `GcmLimits.GctrIsCtrExactly` | crypto/lea_ref/lea_ctr.h:5-16 | under a block cipher GCTR of section 6.5 of NIST SP 800-38D is the library's counter mode exactly when the low word lasts for the whole blocks and the next two key blocks agree in the octets of a partial last one |
| `GcmLimits.SealIsCtrExactly` | crypto/lea_ref/lea_gcm.h:101-122 | under a block cipher the library's ciphertext is that of section 7.1 of NIST SP 800-38D exactly when there is room for the whole blocks and the next two key blocks agree in the octets of a partial last one |
| `GcmLimits.CounterFails` | crypto/lea_ref/lea_gcm.h:24-41 | a block cipher, a 16-octet IV and every text of one block for which it is not |
| `GcmLimits.TagsAgree` | crypto/lea_ref/lea_gcm.h:209-224 | tags of any length over two texts of one length and two counts of additional data are equal exactly when the gap, a product with the hash key, begins with that many zero octets |
| `GcmLimits.LengthGap` | crypto/lea_ref/lea_gcm.h:209-224 | for one text the gap is the difference of the last blocks times the hash key, and zero for equal counts |
| `GcmLimits.StaleLength` | crypto/lea_ref/lea_gcm.h:55-57 | a length left over when there are no additional data leaves a tag of any length right exactly when its block times the hash key begins with that many zero octets |
| `GcmLimits.OneOctetStale` | crypto/lea_ref/lea_gcm.h:209-215 | what one octet leaves behind is the hash key times x^57, zero for the hash key zero only |
| `GcmLimits.HashLinear` | crypto/lea_ref/lea_gcm_generic.c:274-297 | GHASH is linear in the chaining value and the text together |
| `GcmLimits.TextsAgree` | crypto/lea_ref/lea_gcm.h:165-188 | tags of any length over a ciphertext and over its text agree exactly when the gap of the key stream begins with that many zero octets |
| `GcmLimits.TextsDiffer` | crypto/lea_ref/lea_ctr.h:38-124 | a text and its ciphertext differ by the key stream, whatever the text |
| `GcmMessage.SealPieces` | crypto/lea_ref/lea_gcm.h:4-122 | for any cut of the text, on any context between messages, in place or not: the ciphertext of section 7.1 of NIST SP 800-38D where the counter has room, the tag over the length counted, and the standard's tag of 4 to 16 octets exactly when there are additional data or the length left over does not show in them |
| `GcmMessage.SealWith96BitIv` | crypto/lea_ref/lea_gcm.h:4-122 | with a 12-octet IV, for any cut: every octet of the ciphertext from the encryption of the IV and a number from 2 on, the first block from that of the number 2, and the tag from the hash and the number 1 |
| `GcmMessage.OpenWith96BitIv` | crypto/lea_ref/lea_gcm.h:124-254 | the same for decryption: every octet of the text, and status 0 exactly for that tag |
| `GcmMessage.HashedUnderOne` | crypto/lea_ref/lea_gcm.h:209-224 | what is hashed, under the hash key one: the additional data, the text, zeros to the end of its block, and both lengths in bits, that of the additional data first |
| `GcmMessage.OpenPieces` | crypto/lea_ref/lea_gcm.h:124-254 | for any cut of the ciphertext, on any context between messages, the text of the whole is delivered and the status is 0 exactly for the tag over the length counted; in place that tag is over the text |
| `GcmMessage.RoundTrip` | crypto/lea_ref/lea_gcm.h:4-254 | under independent cuts the text comes back, between two contexts or on one, in place or not; a tag of 4 to 16 octets is accepted exactly when the gap of the two counts, and of the key stream for decryption in place, begins with as many zeros |
| `GcmMessage.StaleTag` | crypto/lea_ref/lea_gcm.h:209-251 | after a message with one octet of additional data every message without any gets the standard's tag exactly when the hash key times x^57 is zero in the octets of the tag |
| `GcmMessage.SealInTwoParts` | crypto/lea_ref/lea_gcm.h:44-58 | with additional data in two calls, the first of whole blocks, the tag is the standard's exactly when the difference between the second length and the whole one does not show in its octets |
| `GcmMessage.InPlaceRejects` | crypto/lea_ref/lea_gcm.h:165-187 | a message that decryption into another buffer accepts and decryption in place rejects, for every text of one block |
| `Counter.Ctr128Inc` | crypto/lea_ref/lea_ctr.h:5-16 | the octet carry loop increments the array in place |
| `Counter.IncValue` | crypto/lea_ref/lea_ctr.h:5-16 | the increment adds one to the big-endian value, and takes all ones to zero |
| `Counter.IncByValue` | crypto/lea_ref/lea_ctr.h:18-36 | n increments add n modulo 2^128 |
| `Counter.BeNatInjective` | crypto/lea_ref/lea_ctr.h:5-16 | counter blocks are equal exactly when their values are |
| `Counter.Word32IsBe` | crypto/lea_ctr.c:17-20 | the four shifts and truncations store a word in big-endian order |
| `Ctr.CtrIsCtrBlocks` | crypto/lea_ref/lea_ctr.h:106-121 | the octet formula is the block definition of section 6.5 of NIST SP 800-38A |
| `Ctr.CtrEnc` | crypto/lea_ref/lea_ctr.h:38-124 | batches of 8, 4 and 1 blocks and the tail, in place or not, give octet j of the input xor octet j mod 16 of E(ctr + j div 16), and advance the counter by the whole blocks |
| `Ctr.CtrInverse` | crypto/lea_ref/lea_ctr.h:126-129 | encrypting twice at one position gives back the text |
| `Modes.RunConcat` | crypto/lea_ref/lea_online.c:120-221 | every block mode over a concatenation is the mode over the parts, the chaining value carried over |
| `Modes.RunInverse` | crypto/lea_ref/lea_cbc.h:1-92 | in every mode decryption of the encryption of whole blocks is the text, and both ends chain to the same value |
| `Modes.CryptInverse` | crypto/lea_ref/lea_cfb.h:1-89 | the stream modes are undone over texts of any length, whatever the block function is |
| `ModeLoops.CbcEncLoop` | crypto/lea_ref/lea_cbc.h:1-28 | CBC encryption of section 6.2 of NIST SP 800-38A, in place or not |
| `ModeLoops.CbcDecLoop` | crypto/lea_ref/lea_cbc.h:30-92 | the backward loop in batches of 8, 4 and 1 gives CBC decryption of section 6.2, also when the output array is the input array; nothing after the text changes |
| `ModeLoops.CfbEncLoop` | crypto/lea_ref/lea_cfb.h:1-42 | CFB128 encryption of section 6.3 of NIST SP 800-38A over any length, in place or not |
| `ModeLoops.CfbDecLoop` | crypto/lea_ref/lea_cfb.h:44-89 | tail first, then blocks backwards, gives CFB128 decryption over any length, also in place |
| `ModeLoops.OfbLoop` | crypto/lea_ref/lea_ofb.h:1-37 | OFB of section 6.4 of NIST SP 800-38A over any length, the chaining value left in the array |
| `ModeLoops.EcbLoop` | crypto/lea_ref/lea_ecb.h:4-67 | every whole block goes through the cipher |
| `Online.Flags` | crypto/lea_ref/lea.h:36-49 | the flag bits of the numeric codes mean: hold a block back exactly for unpadding, need whole blocks exactly for block modes that do not pad their output |
| `Online.Blocks` | crypto/lea_ref/lea_online.c:120-221 | one call of a mode function gives the fold over its blocks and the chaining value the next call needs |
| `Online.BlocksInto` | crypto/lea_ref/lea_online.c:120-221 | the same also over the input buffer; the value kept in CBC and CFB decryption is then the last block of what the input buffer holds afterwards |
| `OnlineContext.StripPad` | crypto/lea_ref/lea_online.c:271-278 | unpadding the last block of a padded text gives its last, partial block |
| `OnlineContext.StripAgrees` | crypto/lea_ref/lea_online.c:297-315 | the library's check, whose limit is 0x16, agrees with PKCS #5 exactly unless the last octet is 0 or the whole block repeats a number from 17 to 22 |
| `OnlineContext.ZeroPaddingAccepted` | crypto/lea_ref/lea_online.c:299-311 | the zero block is a concrete case: taken as text here, not valid padding in PKCS #5 |
| `OnlineContext.OnlineContext.Update` | crypto/lea_ref/lea_online.c:61-240 | for every type and input the octets so far out are the mode over the blocks so far, the rest is buffered, and exactly the final block is held back for unpadding |
| `OnlineContext.OnlineContext.UpdateInPlace` | crypto/lea_ref/lea_online.c:61-240 | over its own input, with nothing waiting, the output of the call is right, and the context is right for the next one exactly if the mode is not CBC or CFB decryption, or no more than a block came in, or the last ciphertext block decrypts to itself |
| `OnlineContext.LastOfRun` | crypto/lea_ref/lea_online.c:153-163 | the chaining value kept in place is the text of the last block, given by that block and the one before |
| `OnlineContext.OnlineContext.UpdateWaiting` | crypto/lea_ref/lea_online.c:87-115 | over its own input with octets waiting and less than two blocks together, the output is right, and what waits afterwards is right exactly when no more than a block came together or the output repeats the octets it overwrites |
| `OnlineContext.WaitingFails` | crypto/lea_ref/lea_online.c:109-115 | for every mode, cipher, chaining value and waiting octets one more octet exists that is not repeated |
| `OnlineContext.OnlineContext.Final` | crypto/lea_ref/lea_online.c:242-382 | what is left of the one-shot mode over all input comes out, with each error status exactly where the length or the padding calls for it |
| `OnlineMessage.CryptPieces` | crypto/lea_ref/lea_online.c:61-382 | CTR, OFB and CFB128 over any pieces are the one-shot mode on the whole text, and every octet, also of a partial last block, is the text combined with the key block of its place |
| `OnlineMessage.CryptBlocks` | crypto/lea_ref/lea_online.c:61-382 | ECB and CBC without padding take exactly texts of whole blocks, and every output block is that of the standard from the blocks around it |
| `OnlineMessage.PaddedRoundTrip` | crypto/lea_ref/lea_online.c:87-115 | with PKCS5 padding, n octets of value n, the ciphertext is that of the padded text block by block, and every text comes back, for independent cuts of text and ciphertext |
| `OnlineMessage.PadIs` | crypto/lea_ref/lea_online.c:87-115 | the padding completes the last block with at least one octet, each giving their number |
| `ModeBlocks.RunBlock` | crypto/lea_ref/lea_online.c:61-382 | block by block, for all fourteen operations: C = E(P), D(C), E(P xor C of the block before), D(C) xor the C before, and P xor E of the counter, of the last key block, or of the C before |
| `ModeBlocks.KeyBlockIs` | crypto/lea_ref/lea_online.c:61-382 | the key block of a stream at any place, also before a partial last block |
| `OnlineMessage.InPlaceGoesWrong` | crypto/lea_ref/lea_online.c:153-163 | four blocks decrypted in place in two calls that do not give the text, for CBC and CFB128, every cipher and every IV |
| `OnlineMessage.TwoCallsInPlace` | crypto/lea_ref/lea_online.c:153-163 | whole blocks in two calls give the text exactly when the first block of the second decrypts the same from the last text block of the first as from its last ciphertext block |
| `OnlineMessage.WrongStarts` | crypto/lea_ref/lea_cbc.h:30-92 | the first blocks that make it wrong are, for CBC, all but the decryption of zero |
| `Words.LoadStore` | crypto/lea_ref/lea_core.c:554-557 | reading back a stored little-endian word gives the word |
| `Words.StoreLoad` | crypto/lea_ref/lea_core.c:669-672 | storing a loaded word gives its octets |
| `Lea.EncryptFour` | crypto/lea_ref/lea_core.c:559-570 | twelve assignments with rotating registers are four identical rounds with word rotation |
| `Lea.DecryptFour` | crypto/lea_ref/lea_core.c:687-701 | twelve assignments undo four rounds |
| `Lea.EncryptBlock` | crypto/lea_ref/lea_core.c:547-673 | the unrolled code is 24, 28 or 32 rounds, as the round field says |
| `Lea.DecryptBlock` | crypto/lea_ref/lea_core.c:675-801 | the unrolled decryption is the inverse rounds in reverse order |
| `Lea.RoundIsInverted` | crypto/lea_ref/lea_core.c:559-561 | a round and its inverse undo each other in both directions |
| `Lea.RoundsAreInverted` | crypto/lea_ref/lea_core.c:547-801 | any number of rounds is a bijection on the four words, under every array of round keys |
| `Lea.CipherIsInverted` | crypto/lea_ref/lea_core.c:547-801 | decryption undoes encryption and the reverse, for every block, round-key array and round field |
| `Lea.KeyedCipherInverts` | crypto/lea_ref/lea_core.c:547-801 | LEA under one key meets what the block modes need |
| `LeaKeys.KeyedRoundIs` | crypto/lea_ref/lea_core.c:59-159 | the round keys of a 16-octet key have the same word in three places of each round |
| `LeaKeys.Lea128Vector` | crypto/lea_ref/lea_core.c:59-801 | the known ciphertext of one block under one key of 16 octets, key schedule and 24 rounds computed, in both directions |
| `LeaCtr.LeaCtrCrypt` | crypto/lea_ctr.c:4-27 | one message is counter mode from the block of the 96-bit high part and the big-endian low word, in both directions |
| `LeaCtr.OnlyTouched` | crypto/lea_ctr.c:22-27 | the output depends on the cipher at ceil(len/16) consecutive counter blocks only |
| `LeaCtr.AllTouched` | crypto/lea_ctr.c:22-27 | and on every one of them |
| `LeaCtr.CounterValue` | crypto/lea_ctr.c:16-20 | counter block j of a message with zero high part has the value low + j, carrying into the high part |
| `KeyStore.SlotOf` | keymgmt/key_store.c:18-25 | exactly addresses up to 247 and the three directions have a place in the tables |
| `KeyStore.SlotsApart` | keymgmt/key_store.c:18-25 | no two pairs of address and direction share a place |
| `StateFile.DecimalValue` | keymgmt/ctr_state.c:131-138 | scanning the digits of a printed number gives the number |
| `StateFile.LineParses` | keymgmt/ctr_state.c:161-175 | the six conversions scan a printed line back to its address, direction and entry, for all 32-bit values |
| `StateFile.LineText` | keymgmt/ctr_state.c:132-139 | the text of a line: address, direction, flag and next counter for outgoing messages, flag and highest counter of incoming ones, in decimal with single blanks |
| `StateFile.SlotLineMeaning` | keymgmt/ctr_state.c:176-196 | a printed line sets exactly the entry it was printed from |
| `StateFile.LoadLines` | keymgmt/ctr_state.c:160-197 | loading the lines of the first n slots over any table restores the entries in use among them and leaves the rest |
| `StateFile.SaveThenLoad` | keymgmt/ctr_state.c:115-201 | saving and loading restores every entry in use over any table, changes nothing over the saved one, and brings back nothing else over an empty one |
| `StateFile.LinesStandForEntries` | keymgmt/ctr_state.c:126-138 | every line of a saved table stands for an entry in use |
| `StateFile.OneLineEach` | keymgmt/ctr_state.c:124-143 | every entry in use has a line, and slots strictly increase from line to line |
| `StateFile.OverlayBase` | keymgmt/ctr_state.c:150-201 | loading any file sets a slot that has a line to the same entry whatever was there before, and leaves every other slot alone |
| `CtrState.CtrTable.constructor` | keymgmt/ctr_state.c:17-17 | a process starts with no entry in use |
| `CtrState.CtrTable.Persist` | keymgmt/ctr_state.c:115-148 | the file becomes the lines of the table, or stays as it is when it cannot be opened |
| `CtrState.CtrTable.Load` | keymgmt/ctr_state.c:150-201 | the file's lines are laid over the table in order; malformed lines are passed over |
| `CtrState.CtrTable.Reset` | keymgmt/ctr_state.c:38-48 | both flags of one entry are cleared and the table is saved; an invalid slot changes nothing |
| `CtrState.CtrTable.NextOutgoing` | keymgmt/ctr_state.c:50-80 | the counter handed out is the next one if there is one, the provisioned one of a provisioned slot, or zero; the blocks of the message are reserved modulo 2^32 and saved before it is returned; an invalid slot changes nothing |
| `Reservations.StepPosition` | keymgmt/ctr_state.c:38-201 | no event moves the next counter of a slot but its own reservations, when restarts and reloads find the slot's entry in the file |
| `Reservations.StepMoves` | keymgmt/ctr_state.c:38-201 | without its reset the next counter of a slot moves by its own reservations, or goes to that of the file at a restart or at a reload of a file with a line for it |
| `Reservations.SavedIsCareful` | keymgmt/ctr_state.c:115-148 | if the slot is not reset and no restart or reload follows a reservation of it that no later save put into the file, all of them find the slot's entry there; saves for other slots may fail |
| `Reservations.RestartKeeps` | keymgmt/ctr_state.c:150-201 | a restart or reload from a current file brings back every entry in use and keeps the file current |
| `Reservations.StartsAfterEarlier` | keymgmt/ctr_state.c:50-80 | in every careful run message k of a slot starts where the blocks reserved before it end, modulo 2^32 |
| `Reservations.NonReuse` | keymgmt/ctr_state.c:50-80 | over every careful run with resets of other slots, restarts and reloads, the 128-bit counter blocks reserved for different messages of a slot are disjoint while at most 2^32 blocks are reserved, and so are the blocks used |
| `Reservations.SharesBlock` | crypto/lea_ctr.c:16-27 | two messages use a common block exactly when the intervals from their counters on meet, wherever they come from |
| `Reservations.SameStart` | keymgmt/ctr_state.c:77-78 | two messages start at the same counter exactly when a multiple of 2^32 blocks lies between them |
| `Reservations.ReuseExactly` | keymgmt/ctr_state.c:50-201 | over every run without a reset of the slot, with any results of its saves, restarts and reloads, some counter block is reserved twice exactly when the slot is reserved for after a load that came after a reservation no good save followed |
| `Reservations.KeyStreamReuse` | keymgmt/ctr_state.c:50-201 | the same for the blocks used, when messages are not empty |
| `Reservations.FailedSaveReuses` | keymgmt/ctr_state.c:115-122 | the shortest such run: a failed save, a restart, and the same counter again |
| `Reservations.ResetReturnsToSeed` | keymgmt/ctr_state.c:38-48 | after a reset the provisioned counter is next, or zero where none is |
| `Crc.ComputeCrc16` | framing/secure_frame.c:10-27 | the nested loops compute the fold of eight register steps per octet |
| `Crc.FeedLinear` | framing/secure_frame.c:10-27 | the register is linear in its start and the text together |
| `Crc.CrcAffine` | framing/secure_frame.c:10-27 | the checks of two texts differ by the register run on their difference from zero |
| `Crc.ZeroResidue` | framing/secure_frame.c:175-186 | the receiver's comparison succeeds exactly when the check over the whole text, check included, is zero |
| `Crc.ProtectedAccepted` | framing/secure_frame.c:96-98 | a text with a check appended low octet first is accepted exactly when the check is right |
| `Crc.FeedIsShift` | framing/secure_frame.c:16-25 | octet-wise processing is the bit-serial register over the bits in transmission order |
| `Crc.BurstDetected` | framing/secure_frame.c:175-186 | any nonzero error within 16 consecutive bits, anywhere in an accepted text of any length, is rejected |
| `CrcErrors.Undetected` | framing/secure_frame.c:175-186 | an error in an accepted text goes undetected exactly when its bits are a multiple of x^16 + x^15 + x^2 + 1 |
| `CrcErrors.CheckValue` | framing/secure_frame.c:8-28 | the check of nothing is FFFF, that of the digits 1 to 9 is 4B37 |
| `SecureFrame.ParseBuild` | framing/secure_frame.c:29-64 | parsing a built frame gives the frame exactly when its ciphertext is at most 256 octets |
| `SecureFrame.BuildParse` | framing/secure_frame.c:29-64 | building a parsed frame gives the wire octets |
| `SecureFrame.Endpoint.EncryptAndBuild` | framing/secure_frame.c:66-118 | a PDU that is too long or has no key fails and changes nothing; any other is sealed at the next counter, whose blocks are reserved: the first octet is the address, address, PDU and check, low octet first, are under the encryption key of the slot, and the last 32 octets are the keyed hash of all before them under its MAC key |
| `SecureFrame.Endpoint.VerifyAndDecrypt` | framing/secure_frame.c:120-192 | each rejection happens for its own reason and in the order of the checks; the counter moves exactly for frames whose keyed hash is right, short texts included; excluded are exactly the frames whose PDU length would be negative |
| `SecureFrame.ReceivedOctets` | framing/secure_frame.c:120-192 | each verdict in terms of the octets received: which are compared with the keyed hash under the MAC key, and which are decrypted under the encryption key at the next counter and checked |
| `SecureFrame.TwoOctetsAccepted` | framing/secure_frame.c:175-186 | a text of two octets passes the check exactly when it is FF FF |
| `SecureFrame.UnderflowExists` | framing/secure_frame.c:168-189 | such frames exist under every key and at every counter, and no sender builds one |
| `SecureFrame.SendReceive` | framing/secure_frame.c:66-192 | a frame built at the receiver's counter is accepted with exactly the PDU sent, and both reserve the same blocks |
| `SecureFrame.OnlyAuthenticFramesCount` | framing/secure_frame.c:138-162 | malformed, misaddressed, keyless and wrongly hashed frames leave the table alone; any other moves exactly its slot |
| `Channel.SendStep` | framing/secure_frame.c:66-118 | sending keeps the ends synchronised with one more PDU under way |
| `Channel.DeliverStep` | framing/secure_frame.c:120-192 | delivery of the oldest frame is accepted with its PDU and keeps the ends synchronised |
| `Channel.OtherStep` | framing/secure_frame.c:138-157 | foreign frames, traffic of other slots, and restarts and reloads that find the slot's entry in the file keep the ends synchronised |
| `Channel.InOrderDelivery` | framing/secure_frame.c:66-192 | over every run, what the receiver accepts is what was sent, in order and without gaps, and the ends are still synchronised for the rest |
| `Channel.AgreeWhenQuiet` | keymgmt/ctr_state.c:50-80 | whenever nothing is under way both next counters are equal and everything sent was accepted |
| `Channel.RepetitionSeparates` | framing/secure_frame.c:155-162 | one extra authentic frame of the slot drives the counters apart |
| `Lsh256.MsgExpHalf` | crypto/lsh_ref/src/lsh256.c:160-206 | two cycles through one temporary are the message expansion recurrence on eight words |
| `Lsh256.SubMessages.ExpandEven` | crypto/lsh_ref/src/lsh256.c:160-182 | the even message moves two steps on in both halves |
| `Lsh256.SubMessages.ExpandOdd` | crypto/lsh_ref/src/lsh256.c:184-206 | the odd message moves two steps on in both halves |
| `Lsh256.CycleStart` | crypto/lsh_ref/src/lsh256.c:269-275 | half of the long cycle of the word permutation, word by word |
| `Lsh256.CycleEnd` | crypto/lsh_ref/src/lsh256.c:276-281 | the other half, closing with the temporary |
| `Lsh256.WordPermInPlace` | crypto/lsh_ref/src/lsh256.c:267-287 | the chain of moves is the word permutation of the step function |
| `Lsh256.MixInPlace` | crypto/lsh_ref/src/lsh256.c:293-301 | the seven in-place passes are the mix function |
| `Lsh256.StepInPlace` | crypto/lsh_ref/src/lsh256.c:316-325 | message addition, mix and word permutation are step j with its rotation amounts and constants |
| `Lsh256.CompressInPlace` | crypto/lsh_ref/src/lsh256.c:306-344 | the in-place compression is 26 steps of the definition and the last message addition |
| `Lsh256.PermIsInverted` | crypto/lsh_ref/src/lsh256.c:267-287 | the word permutation loses no word |
| `Lsh256.MixIsInverted` | crypto/lsh_ref/src/lsh256.c:293-301 | the mix function can be undone for any constants and amounts |
| `Lsh256.CompressIsBijective` | crypto/lsh_ref/src/lsh256.c:306-344 | for a fixed block the compression is a bijection on the 16-word chaining value |
| `LshVectors.EvenIs` | crypto/lsh_ref/src/lsh256.c:41-42 | the even step on words: rotations by 29 and 1, and every word at its place |
| `LshVectors.OddIs` | crypto/lsh_ref/src/lsh256.c:43-44 | the odd step: rotations by 5 and 17 |
| `LshVectors.UnitStep` | crypto/lsh_ref/src/lsh256.c:316-325 | the image of one bit under an even and an odd step |
| `LshVectors.TwosAreSteps` | crypto/lsh_ref/src/lsh256.c:306-344 | pairs of steps on words, with their messages expanded beside them and the library's constants, are the steps of the compression |
| `LshVectors.LoadedWords` | crypto/lsh_ref/src/lsh256.c:125-158 | which octets of a block are which word of its two messages |
| `LshWords.RowsAreGenerated` | crypto/lsh_ref/src/lsh256.c:73-122 | every row of the table of step constants is generated from the one before it |
| `LshHash.PaddedIsOneThenZeros` | crypto/lsh_ref/src/lsh256.c:561-567 | on bits, the padding is a one after the last message bit and zeros to the end of the block |
| `LshHash.PaddedLength` | crypto/lsh_ref/src/lsh256.c:561-569 | the padding always ends the block that holds the last message bit, so one more compression is enough |
| `LshHash.InitialValueIsCompression` | crypto/lsh_ref/src/lsh256.c:451-470 | where the initial value is computed it is the compression of an all-zero block into the seed of the type |
| `LshVectors.StoredInitialValues` | crypto/lsh_ref/src/lsh256.c:57-65 | the types of 32 and 28 octets have the two stored initial values, and these are what the computation for the other types gives with the table of step constants |
| `LshVectors.DigestOfAbc` | crypto/lsh_ref/src/lsh256.c:306-422 | the LSH-256-256 digest of the octets of "abc": padding, loading, 26 steps, last addition, combination and storing |
| `LshVectors.LastOctetBits` | crypto/lsh_ref/src/lsh256.c:403-411 | a digest of some bits is the first octets of the whole, and of the last one only the high bits |
| `LshVectors.StoredOctet` | crypto/lsh_ref/src/lsh256.c:394-411 | octet k of word i of the digest, little-endian |
| `LshVectors.TypeFields` | crypto/lsh_ref/include/lsh_def.h:66-71 | the fields of the numeric types, and which of them are supported and refused |
| `LshContext.LshObject.Init` | crypto/lsh_ref/src/lsh256.c:415-473 | success exactly for the types of LSH-256 with 1 to 32 octets, with the stored initial value for the two standard ones and the stirred seed for all others; a type that fails is kept, with the chaining value as it was |
| `LshContext.LshObject.Stir` | crypto/lsh_ref/src/lsh256.c:459-469 | the loop runs all steps on the chaining value alone |
| `LshContext.LshObject.Update` | crypto/lsh_ref/src/lsh256.c:475-541 | all whole blocks so far are compressed, fewer than 128 octets and the last bits are buffered; data after a partial octet and refused types, among them that of a finished object, change nothing |
| `LshContext.LshObject.Final` | crypto/lsh_ref/src/lsh256.c:543-577 | the digest is the fold of the compression over the padded bit string, combined and truncated, and the object is cleared; without digest octets, unused bits are taken from the octet before the buffer; refused types change nothing |
| `LshMessage.HashPieces` | crypto/lsh_ref/src/lsh256.c:579-590 | for every supported type any cut into octet pieces and a last update of any number of bits gives the hash of the whole, for every other the error of the initialisation |
| `LshMessage.AfterFailedInit` | crypto/lsh_ref/src/lsh256.c:415-577 | after an initialisation that fails with a type not refused, update and final succeed from the chaining value there was |
| `Hmac.Rfc2104` | crypto/lsh_ref/src/hmac.c:101-141 | for keys of any length the value is the formula of section 2 of RFC 2104, with octets 36 and 5C, in hexadecimal, combined with the key or its hash; for types with unused bits the outer hash is over the bits of the inner digest |
| `Hmac.HmacObject.ShortKey` | crypto/lsh_ref/src/hmac.c:47-65 | keys longer than a block are replaced by their hash, others are not |
| `Hmac.HmacObject.Pads` | crypto/lsh_ref/src/hmac.c:67-75 | both loops together give the zero-filled key combined with each pad octet |
| `Hmac.HmacObject.Init` | crypto/lsh_ref/src/hmac.c:26-90 | the hash has taken the inner pad of the key and the outer one is kept; a type of LSH-256 that is not supported gives the error of the hash, for short and long keys |
| `Hmac.HmacObject.Update` | crypto/lsh_ref/src/hmac.c:92-99 | the data are added to the inner hash |
| `Hmac.HmacObject.Final` | crypto/lsh_ref/src/hmac.c:101-141 | the digest is the outer hash of the outer pad and the bits of the inner digest |
| `Hmac.HmacPieces` | crypto/lsh_ref/src/hmac.c:143-158 | any cut of the message gives the value of the whole, for keys of any length, and an unsupported type the error |
| `Cmac.MakeSubkey` | crypto/lea_ref/lea_cmac.h:6-19 | the loop shifts the block and reduces it |
| `Cmac.DoubleIsTimesX` | crypto/lea_ref/lea_cmac.h:6-19 | coefficient by coefficient, the result is the product with x in GF(2^128) |
| `Cmac.TagByBlocks` | crypto/lea_ref/lea_cmac.h:84-118 | section 6.2 of NIST SP 800-38B by blocks: a whole last block with the once doubled encryption of zero, a partial or empty one, filled with 80 and zeros, with the twice doubled one |
| `Cmac.CmacContext.constructor` | crypto/lea_ref/lea_cmac.h:22-41 | both subkeys are derived and nothing is authenticated yet |
| `Cmac.CmacContext.Update` | crypto/lea_ref/lea_cmac.h:43-82 | all blocks but the last are chained and the last, possibly whole, is held back |
| `Cmac.CmacContext.MixFilled` | crypto/lea_ref/lea_cmac.h:96-100 | combining only the octets up to the mark is combining the filled block |
| `Cmac.CmacContext.Final` | crypto/lea_ref/lea_cmac.h:84-118 | the truncated MAC of section 6.2 of NIST SP 800-38B, after which the context is ready for another text |
| `Cmac.TagPieces` | crypto/lea_ref/lea_cmac.h:43-118 | any cut of the text gives the tag of the whole, also for the empty text and for whole blocks, and the same context serves again |
| `ModbusPdu.GetPut` | modbus/modbus_pdu.c:28-37 | reading back a stored word gives the word |
| `ModbusPdu.PackedBits` | modbus/modbus_pdu.c:160-172 | packing puts bit i in bit i mod 8 of octet i div 8, and zeros after the last |
| `ModbusPdu.UnpackPacked` | modbus/modbus_pdu.c:238-266 | unpacking packed bits gives the bits |
| `ModbusPdu.DecodeFits` | modbus/modbus_pdu.c:129-300 | a request that raises no exception covers only points of the tables |
| `ModbusServer.Slave.EnsureInitialized` | modbus/modbus_pdu.c:12-26 | the first request finds the initial tables, later ones what is there |
| `ModbusServer.Slave.BuildResponse` | modbus/modbus_pdu.c:129-300 | each of the eight functions, its exceptions in their order, and unknown functions get the reply and the new tables of the semantics, and these are what the octets of the request say; an empty request gets no reply |
| `ModbusServer.Slave.ReadBitTable` | modbus/modbus_pdu.c:141-172 | reading coils and discrete inputs replies with packed bits and changes nothing |
| `ModbusServer.Slave.ReadWordTable` | modbus/modbus_pdu.c:173-200 | reading registers replies with their words and changes nothing |
| `ModbusServer.Slave.SetCoil` | modbus/modbus_pdu.c:201-222 | only 0 and 0xFF00 are taken, exactly the coil addressed changes, and the request is echoed |
| `ModbusServer.Slave.SetRegister` | modbus/modbus_pdu.c:223-237 | exactly the register addressed takes the word, and the request is echoed |
| `ModbusServer.Slave.SetCoils` | modbus/modbus_pdu.c:238-266 | exactly the coils addressed take the unpacked bits |
| `ModbusServer.Slave.SetRegisters` | modbus/modbus_pdu.c:267-295 | exactly the registers addressed take the words sent |
| `ModbusServer.BuildRequest` | modbus/modbus_pdu.c:51-127 | the request PDU of each function with its made-up data, or none for an unknown function or a quantity out of range |
| `ModbusRuns.ApplyKeepsValid` | modbus/modbus_pdu.c:201-295 | coils stay 0 or 1 |
| `ModbusRuns.LatestWrites` | modbus/modbus_pdu.c:129-300 | after any sequence of requests every coil and holding register holds what was last written to it, and the input tables never change |
| `ModbusRuns.ReadsLatestCoils` | modbus/modbus_pdu.c:141-172 | a read of coils after any sequence unpacks to the bits last written |
| `ModbusRuns.ReadsLatestRegisters` | modbus/modbus_pdu.c:173-200 | a read of holding registers after any sequence gives the words last written |
| `ModbusOctets.EveryRequestHandled` | modbus/modbus_pdu.c:129-300 | on octets and numbers alone: for each function code when which exception is raised, every bit and word of the reply, and every point of the tables afterwards |
| `ModbusOctets.ReadsDiscreteInputs` | modbus/modbus_pdu.c:141-172 | after any sequence of requests a read of discrete inputs gives the bits the table began with |
| `ModbusOctets.ReadsInputRegisters` | modbus/modbus_pdu.c:173-200 | after any sequence of requests a read of input registers gives the words the table began with |
| `ModbusOctets.FirstBits` | modbus/modbus_pdu.c:12-26 | the replies to a first request for eight coils and for eight discrete inputs |
| `ModbusOctets.BuiltOctets` | modbus/modbus_pdu.c:51-127 | when the builder builds a request, and every octet of it |
| `ModbusRuns.ExceptionsAndSizes` | modbus/modbus_pdu.c:44-49 | exceptions change nothing and every reply has 2 to 253 octets |
| `ModbusRuns.BuiltIsUnderstood` | modbus/modbus_pdu.c:51-300 | a built request is decoded as meant; the only exception it can raise is an illegal address, exactly when its points do not fit the tables |
| `Instance.EncryptBlock` | crypto/lea_ref/lea_core.c:547-673 | LEA-128 is the block function of the instance |
| `Instance.HmacLsh256` | crypto/hmac_lsh.c:6-12 | HMAC-LSH-256 is its keyed hash |
| `Instance.LeaPaddedRoundTrip` | crypto/lea_ref/lea_online.c:61-382 | padded LEA in ECB and CBC mode brings back every text |

## Left out

- GcmMessage.SealPieces: a message without any encryption call takes its direction from the one before; `Final` covers both directions. Lengths, also the one left over, stay below 2^28 octets, as the source's signed lengths in bits require.
- GcmMessage.OpenPieces: the same limits as for SealPieces.
- GcmContext.GcmContext.SetAad: after text has been processed only the hash and the length are stated, as the message then is none of the standard's.
- GcmContext.GcmContext.SetCtr: only between messages; of a message given up before its end the hash so far, a started block and what the counter holds would enter the next.
- GcmMessage.SealInTwoParts: a first part of whole blocks; otherwise its padding is hashed as well.
- OnlineContext.OnlineContext.Update: output and input are separate.
- OnlineContext.OnlineContext.UpdateInPlace: with nothing waiting; `UpdateWaiting` has the other case.
- OnlineContext.OnlineContext.UpdateWaiting: less than two blocks together; with more, every block is written over input of the next.
- SecureFrame.Endpoint.VerifyAndDecrypt: the diagnostic outputs (address, ciphertext length, both checks) are not modelled.
- StateFile.LineParses: in lines not printed by the library, minus signs are not modelled, numbers keep their low 32 bits, and flags count as true unless zero.
- Reservations.NonReuse: the blocks used, other than those reserved, are stated for messages shorter than 2^31 octets, the range of the signed length the cipher is called with.
- LeaCtr.LeaCtrCrypt: the narrowing of lengths of 2^31 octets and more is not modelled; frames have at most 256.
- LshContext.LshObject.Init: the step constants are a parameter; `StoredInitialValues` and `DigestOfAbc` are about the table of the library.
- LshContext.LshObject.Final: types with more than 7 unused bits, which LSH_MAKE_TYPE does not make.
- Hmac.HmacObject.Init: the types of LSH-256, with at most 7 unused bits.
- Contexts: the 16-octet registers of GCM, CMAC and the buffered cipher are block values, not arrays; the table of GCM, the LSH chaining value and the buffers of the hashes are arrays.
- Null pointers and negative lengths, which the source answers by returning early.
- The LEA key schedule for keys of 24 and 32 octets, a list of assignments over constants: but for `Lea128Vector`, which has that for 16 octets, every result holds for any array of round keys.
- LSH-512 and CCM, which repeat the arguments for LSH-256, CTR and CBC-MAC.
- SIMD variants and processor detection: a call for 4 or 8 blocks is that many calls for one.
- Key file parsing and provisioning: the key store is a map from slots to keys and a seed.
- ctr_state_validate_incoming, which nothing calls.
- Files: opening either works or not, a write is complete, and the file is its sequence of lines, each short enough for the 256-octet buffer.
- Wiping of memory beyond what later calls depend on, timing, and cryptographic strength; foreign frames are those that fail the keyed hash or belong to another slot.
- Serial port, logging, menus and the demonstration programs.
