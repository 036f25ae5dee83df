# Verification model of wolfProvider's own algorithms

wolfProvider connects OpenSSL to wolfCrypt. Most of it passes calls on; this project models the
parts where the provider itself computes something, and proves what that code is for.

| file | models |
|---|---|
| `Bytes.dfy` | bytes, constant-time masks, whole-block arithmetic, big- and little-endian values, buffers |
| `BlockCipher.dfy` | a keyed block permutation with CBC and ECB over it |
| `BlockStream.dfy` | a message in any number of updates and a final, as an abstract stream |
| `TlsCbc.dfy` | TLS CBC records: padding mask, rotating MAC extraction, sealing |
| `BlockCtx.dfy` | the AES and DES3 block contexts, which refine the abstract stream |
| `Cts.dfy` | ciphertext stealing, variant CS3 |
| `StreamModes.dfy` | counter mode and cipher feedback |
| `StreamCtx.dfy` | the AES stream context |
| `Gcm.dfy` | GCTR, one-shot GCM, counters, and the abstract session of a message in pieces |
| `GcmMessages.dfy` | what a GCM context answers over many messages |
| `GcmTls.dfy` | TLS 1.2 GCM records |
| `RecordRuns.dfy` | the keys, nonces and record count of one context over runs of all calls that change them |
| `AeadCtx.dfy` | the spooling GCM context, its IV states and its record path |
| `BlockSessions.dfy`, `StreamSessions.dfy`, `AeadSessions.dfy` | whole messages and records through the contexts, call by call |
| `Integers.dfy` | multi-byte arithmetic: X25519 reduction, scalar order checks, DH padding |
| `References.dfy` | reference counts of shared keys over whole runs |
| `DhKeys.dfy` | the DH key and context objects, each call of which is one abstract step |

The block permutation and the GCM tag are abstract: all that is assumed of them is their lengths
and that decryption inverts encryption. Objects the program updates in place are classes, its loops
are loops, and each method is tied to a function on values; the lemmas are about those functions.
The three session modules make the calls a user of the contexts makes, and so hold the methods
themselves to the results.
The outcome of every allocation, lock, random draw and running check is a parameter; a result that
needs one of them to succeed says so.

Where the code and what is written about it differ, the model follows the code:

- The comment on the Curve25519 constant calls it an order; its value is the field prime
  (`Integers.PrimeValue`).
- The signature pre-check stops scalars above the order, while RFC 8032 asks for scalars below it.
  `Integers.EdChecksAreStrictUnlessEqual` gives the exact condition, `Integers.OrderItselfPasses`
  and `Integers.Ed448OrderItselfPasses` the inputs.
- A comment in GCM decryption says that only the most recent authentication error counts; final
  refuses before it gets there once an error is recorded, whatever messages follow.
  `GcmMessages.FinalAccepts` is the exact condition and `GcmMessages.RightTagIsRefused` the input.
- A recorded error also keeps final from dropping what was taken in, and an initialisation does not
  drop it either, so messages after it are deciphered at the wrong place in the keystream
  (`GcmMessages.MessageIsEmitted`, `GcmMessages.LaterMessageIsGarbled`).
- A tag the context made and nobody fetched keeps final from comparing the next given tag
  (`GcmMessages.UnfetchedTagAcceptsAny`).
- The GCM tag is not made again at final when an update has made one, so additional data given
  after the last data is not covered (`Gcm.TagCoversAllAad`, `Gcm.TrailingAadIsLost`).
- Section 3 of RFC 5288 asks for a different explicit nonce for every record. Sealing a record does
  not move the nonce on: two records share it if and only if the incrementing calls between them are
  a multiple of 2^64, as when there are none, under one key and IV (`RecordRuns.RecordsShareNonce`,
  `RecordRuns.TwoRecordsShareNonce`). Every header sets the count of records back, so the check for
  too many never refuses one (`RecordRuns.CountStaysLow`, `RecordRuns.NeverTooMany`).
- The guard on the fixed part of a generated IV is there to leave 8 bytes; its unsigned difference
  wraps when the part is longer than the IV, and then the guard passes
  (`RecordRuns.GuardLeavesRoomUnlessLonger`).
- Ciphertext stealing is offered from one block up, but on exactly one block decryption does not undo
  encryption and writes two blocks (`CiphertextStealing.CtsRoundTrip`).
- The block updates take the size of the output buffer, but compare only a flushed block with it
  (`BlockContext.OverrunsWhenMoreThanRoom`, `BlockContext.BlockWithoutRoom`).
- A DES3 record of a single block that passes the check has a length that wraps
  (`TlsCbc.SingleBlockWraps`, `TlsCbc.ThreeBytesWrap`).
- DH padding lengthens the secret only when it is asked for; otherwise the length is left alone.

## Model

| member | source | states |
|---|---|---|
| `BlockCipher.CryptConcat` | src/wp_aes_block.c:449-506 | Processing a run of whole blocks in two calls, the second from the register the first left, gives the same bytes and the same final register as one call, for CBC and ECB in both directions |
| `BlockCipher.CryptRoundTrip` | src/wp_aes_block.c:449-498 | Decrypting from the same register undoes encrypting, and both directions leave the same register |
| `BlockCipher.CbcIsChained` | src/wp_aes_block.c:453-469 | Section 6.2 of NIST SP 800-38A: every ciphertext block is the cipher of the plaintext block added to the block before it, the first to the IV |
| `BlockCipher.CbcDeciphers` | src/wp_aes_block.c:462-468 | Every plaintext block is the inverse permutation of its ciphertext block added to the ciphertext block before it, the first to the IV, for any ciphertext |
| `BlockCipher.EcbIsBlockwise` | src/wp_aes_block.c:473-486 | In ECB every block is enciphered or deciphered on its own |
| `BlockCipher.CbcRegIsLastBlock` | src/wp_aes_block.c:500-504 | The register saved as the next IV is the last ciphertext block, the one made when encrypting and the one taken in when decrypting |
| `BlockCipher.CbcSelfSynchronises` | src/wp_aes_block.c:462-468 | Decrypting from two different registers agrees on everything after the first block |
| `BlockStream.FeedConcat` | src/wp_aes_block.c:758-809 | Two updates in a row are the update with the joined input: same buffer, register and output |
| `BlockStream.FeedWithFlush` | src/wp_aes_block.c:758-809 | Topping up the buffer, processing it, and then processing the rest from the new register is what one cut of buffer and input together gives, and the room needed adds up |
| `BlockStream.FeedWithoutFlush` | src/wp_aes_block.c:758-809 | When the buffer is not filled or must be held back, the update emits nothing beyond the blocks of the input alone |
| `BlockStream.ChunksAreInvisible` | src/wp_aes_block.c:740-816 | Any number of updates, split anywhere, leaves the same state and emits the same bytes as one update with all the input |
| `BlockStream.BytesAreConserved` | src/wp_aes_block.c:758-809 | Bytes in are bytes out plus bytes buffered; the buffer holds total mod block size, or ((total - 1) mod block size) + 1 when padded decryption holds a block back (zero for no input) |
| `BlockStream.EncryptedIsWholeMessage` | src/wp_aes_block.c:740-867 | Any split into updates, and final, is one CBC or ECB pass over the message padded as in section 6.3 of RFC 5652; without padding it succeeds exactly for whole blocks |
| `BlockStream.DecryptedIsWholeMessage` | src/wp_aes_block.c:740-935 | Any split into updates, and final, succeeds exactly when the ciphertext is whole blocks (at least one if padded) with correct padding, and then gives the unpadded message |
| `BlockStream.UnpadPadded` | src/wp_aes_block.c:836-844 | Padding is always accepted and removing it gives the message back |
| `BlockStream.PaddingBytes` | src/wp_aes_block.c:836-844 | Padding is 1 to bs bytes that fill the last block, each holding their number |
| `BlockStream.UnpadIsExact` | src/wp_aes_block.c:900-918 | Whole blocks are unpadded to a message if and only if they are that message with its padding; any other ending is refused |
| `BlockStream.DecryptedIsExact` | src/wp_aes_block.c:740-935 | Padded decryption in any updates gives a message if and only if the ciphertext is whole blocks that decipher to that message with its padding |
| `BlockStream.FinalsNeedRoom` | src/wp_aes_block.c:849-925 | When final fails for lack of room, or because something is buffered and it does not pad; with room it does not depend on how much |
| `BlockStream.RoundTrip` | src/wp_aes_block.c:740-935 | For every message and every two independent splits, decrypting what was encrypted gives the message, for block sizes 16 and 8 alike |
| `BlockContext.BlockCtx.InitIv` | src/wp_aes_block.c:282-307 | An IV of the right length becomes IV, original IV and register; any other length changes nothing |
| `BlockContext.BlockCtx.Init` | src/wp_aes_block.c:325-378 | Empties the buffer; success exactly when running, the IV and key have the right lengths and the parameters are taken; in CBC the register is then the given IV, or without one the last one given (AES, or the current IV if none was), zeros under a new key or the old register (DES3), even when the key was refused |
| `BlockContext.BlockCtx.DoIt` | src/wp_aes_block.c:431-509 | The chunk loop (at most 0xFFFFFFF0 bytes at a time, 0xFFFFFFF8 for DES3) is invisible at every block-aligned length: one pass over the whole input, and in CBC the saved IV is the final register; unsupported modes change nothing |
| `BlockContext.BlockCtx.FillBuffer` | src/wp_aes_block.c:758-768 | A buffer that is not empty takes as much input as completes a block |
| `BlockContext.BlockCtx.FlushBuffer` | src/wp_aes_block.c:771-786 | A full buffer is processed unless it is the last block of a padded decryption; fails exactly when there is no room for a block |
| `BlockContext.BlockCtx.TakeBlocks` | src/wp_aes_block.c:787-809 | The whole blocks of the rest are processed, less a held-back last one, and what is left is buffered |
| `BlockContext.UpdateComposes` | src/wp_aes_block.c:758-809 | Its two stages, flushing the topped-up buffer and processing the rest, together are one step of the abstract stream; on failure only the buffer was filled |
| `BlockContext.OverrunsWhenMoreThanRoom` | src/wp_aes_block.c:774-802 | An update that succeeds emits more than the given output size if and only if its whole blocks are more than that size, and nothing was buffered or one block fits |
| `BlockContext.BlockWithoutRoom` | src/wp_aes_block.c:787-802 | The input that shows it: one block, nothing buffered and an output size of zero succeeds and emits the block |
| `BlockContext.NothingOverruns` | src/wp_aes_block.c:774-802 | An output size of the input length and one block more is never exceeded |
| `BlockContext.BlockCtx.UpdateBlocks` | src/wp_aes_block.c:758-809 | Fails exactly when a filled buffer has no room; otherwise the new state and the emitted bytes are those of the abstract stream, no other output byte changes, and more than the output size is emitted exactly when the rule above says so |
| `BlockContext.BlockCtx.Update` | src/wp_aes_block.c:740-816 | The same outside TLS; in TLS the sealed record enciphered in place, or the record decrypted in place and checked |
| `BlockContext.BlockCtx.PadBuffer` | src/wp_aes_block.c:836-844 | The buffer becomes a full block whose added bytes each hold their number |
| `BlockContext.BlockCtx.FinishEnc` | src/wp_aes_block.c:828-867 | Result, output, and state of the abstract final, including the two failures |
| `BlockContext.BlockCtx.CheckPadding` | src/wp_aes_block.c:900-918 | Accepts exactly when the last byte is between 1 and the block size and that many last bytes equal it |
| `BlockContext.BlockCtx.FinishDec` | src/wp_aes_block.c:879-935 | Result, output, and state of the abstract final, including wrong sizes, bad padding and lack of room |
| `BlockContext.BlockCtx.SealRecord` | src/wp_aes_block.c:749-757 | Writes the TLS padding after the record in place and nothing else |
| `BlockContext.BlockCtx.UpdateSealing` | src/wp_aes_block.c:749-809 | An encrypting TLS update emits the encipherment of the padded record and leaves nothing buffered |
| `BlockContext.BlockCtx.TlsDecRecord` | src/wp_aes_block.c:526-726 | The branch-free opener is two slices: it succeeds, gives the length and exposes the MAC exactly as the definition of an opened record says |
| `BlockContext.BlockCtx.UpdateOpening` | src/wp_aes_block.c:787-813 | A decrypting TLS update decrypts in place, whole blocks from the current register, and delivers the length and MAC of the opened record |
| `BlockSessions.Encipher` | src/wp_aes_block.c:740-867 | The calls of a message on the context itself: any updates and final give out one pass over it, padded or of whole blocks |
| `BlockSessions.Decipher` | src/wp_aes_block.c:740-935 | Any updates and final accept, and give out a message, exactly when the ciphertext is whole blocks that decipher to it with its padding |
| `BlockSessions.EncipherTwice` | src/wp_aes_block.c:347-351 | A second message after an init without key or IV starts from the first IV again: equal messages give equal ciphertexts |
| `BlockSessions.SealAndOpen` | src/wp_aes_block.c:740-816 | A record sealed by one context in place and opened by another with the same key, wherever the two stand, gives payload and MAC back |
| `BlockContext.BlockCtx.Des3DecRecord` | src/wp_des.c:487-500 | The DES3 check accepts exactly when the padding length is below 8 and the last padding length + 1 bytes equal it; the length drops padding and one IV block modulo 2^64 |
| `TlsCbc.PaddingMask` | src/wp_aes_block.c:625-651 | All ones exactly when the record has room for MAC and padding and the last padding length + 1 bytes all equal the padding length, zero otherwise |
| `TlsCbc.ClearDifference` | src/wp_aes_block.c:639-643 | One round keeps the low byte all ones exactly when it was and the byte is not covered by the padding or equals it |
| `TlsCbc.Collapse` | src/wp_aes_block.c:644-651 | A low byte of all ones becomes a full-width mask of ones, anything else becomes zero |
| `TlsCbc.RemovePadding` | src/wp_aes_block.c:653-654 | The record length loses the padding exactly when it is good |
| `TlsCbc.RingIsFilledOnce` | src/wp_aes_block.c:697-698 | The slot a MAC byte falls in is still zero, and writing it extends what the ring holds by that byte |
| `TlsCbc.ScanMac` | src/wp_aes_block.c:681-699 | The rotating scan leaves the MAC in the ring from slot (macStart - scanStart) mod macSize on, for every MAC size from 1 to 64 |
| `TlsCbc.LoadBothHalves` | src/wp_aes_block.c:706-711 | Loading from both 32-byte halves, in bounds, and selecting by mask reads the slot |
| `TlsCbc.UnrotateMac` | src/wp_aes_block.c:701-719 | The MAC comes out in order; with bad padding exactly the random MAC does |
| `TlsCbc.ExtractMac` | src/wp_aes_block.c:681-720 | The result is the macSize bytes before macEnd when padding is good and the random MAC when it is bad |
| `TlsCbc.WellFormedOpens` | src/wp_aes_block.c:535-541 | A record of explicit IV, payload, MAC and p + 1 padding bytes opens to payload length and MAC, for every p up to 255 |
| `TlsCbc.OpenedIsWellFormed` | src/wp_aes_block.c:535-541 | Conversely a record that opens with good padding is exactly explicit IV, payload, the delivered MAC and its padding |
| `TlsCbc.BadPaddingIsHidden` | src/wp_aes_block.c:653-719 | A record that has no room for MAC and padding, or one of whose last p + 1 bytes is not p, keeps all its bytes: its MAC is the random one, and without a MAC it is rejected |
| `TlsCbc.ShortRecordIsRejected` | src/wp_aes_block.c:561-564 | A record with less than a block, the MAC and one byte, or a MAC size above 64, is rejected |
| `TlsCbc.RecordRoundTrip` | src/wp_aes_block.c:749-813 | Section 6.2.3.2 of RFC 5246: sealing explicit IV, payload and MAC and opening it gives the payload and the MAC, even from a different chaining register |
| `TlsCbc.ShortRecordRoundTrip` | src/wp_des.c:426-500 | A DES3 record sealed by the sender passes the receiver check from any register and keeps all bytes after the first block |
| `TlsCbc.SealedIsShort` | src/wp_des.c:426-434 | The sender pads by at most one block, so its own records always pass the padding check |
| `TlsCbc.ShortPaddingIsSealed` | src/wp_des.c:487-499 | A record of whole blocks passes the DES3 check if and only if it is what the sender makes of the bytes before its padding |
| `TlsCbc.SingleBlockWraps` | src/wp_des.c:487-499 | The length of an accepted record of whole blocks is at most that of the record if and only if there are at least two blocks; on one block the subtraction wraps |
| `TlsCbc.ThreeBytesWrap` | src/wp_des.c:426-499 | The input that shows it: three bytes are sealed to one block, which passes with a length of 2^64 - 5 |
| `Bytes.IntMaskGte` | src/wp_internal.c:1186-1189 | The mask is all ones when the comparison (at least) holds and zero when it does not, for differences that fit 32 bits |
| `Bytes.IntMaskLt` | src/wp_internal.c:1215-1219 | The mask is all ones when the comparison (less than) holds and zero when it does not, for differences that fit 32 bits |
| `Bytes.IntMaskEq` | src/wp_internal.c:1199-1205 | The mask is all ones when the comparison (equal, both ways) holds and zero when it does not, for differences that fit 32 bits |
| `Bytes.ByteMaskEq` | src/wp_internal.c:1160-1163 | All ones exactly for equal bytes, zero for others |
| `Bytes.ByteMaskNe` | src/wp_internal.c:1173-1176 | All ones exactly for different bytes, zero for others |
| `Bytes.MaskSelect` | src/wp_internal.c:1229-1232 | Selects the first byte under a full mask and the second under an empty one |
| `CiphertextStealing.RestoredIsWhole` | src/wp_aes_stream.c:482-497 | Reordering the last two blocks and taking the cut-off bytes from the deciphered last block rebuilds the CBC ciphertext of the zero-padded message |
| `CiphertextStealing.CtsIsSwapped` | src/wp_aes_stream.c:407-439 | Block by block: CBC over the message filled up with zeros, all but the last two blocks in order, then the last, then as much of the one before as is left of the message |
| `CiphertextStealing.CtsUndoes` | src/wp_aes_stream.c:395-509 | For every length above 16 bytes decryption undoes encryption from the same bytes, and both sides end with the same IV, the last CBC block (CBC-CS3 of the Addendum to NIST SP 800-38A; section 5 of RFC 3962) |
| `CiphertextStealing.CtsRoundTrip` | src/wp_aes_stream.c:395-509 | Whatever the sender starts from (its register, or its IV when there are leading blocks) and the receiver has as IV: above one block the message comes back if and only if the two are equal; on exactly one block if and only if it happens to be the decipherment of zeros added to the IV |
| `StreamContext.AesStreamCtx.Init` | src/wp_aes_stream.c:292-353 | Success, IV, register, unused keystream and the one-shot flag after init, with and without a key or IV, and after a key of the wrong length or refused parameters |
| `StreamContext.AesStreamCtx.LeadingBlocks` | src/wp_aes_stream.c:407-423 | Everything before the last two blocks is plain CBC from the IV; with no such block nothing is reloaded |
| `StreamContext.AesStreamCtx.Encrypt` | src/wp_aes_stream.c:395-442 | From one block up the scratch-block code emits CBC of the zero-padded message, last two blocks swapped and cut, and saves the last CBC block |
| `StreamContext.AesStreamCtx.LastBlocksBack` | src/wp_aes_stream.c:459-506 | The scratch-block decryption recovers the last two plaintext blocks and saves the ciphertext block that was sent whole; from a single block it writes two others |
| `StreamContext.AesStreamCtx.Decrypt` | src/wp_aes_stream.c:444-509 | Above one block the message of the definition, on one block the decipherment of zeros added to the IV and that of the block; the same saved IV as the sender |
| `StreamContext.AesStreamCtx.StreamBytes` | src/wp_aes_stream.c:534-582 | The chunk loops of counter and feedback mode are invisible at every length, and IV and register end equal |
| `StreamContext.AesStreamCtx.DoIt` | src/wp_aes_stream.c:526-611 | Counter mode enciphers by CTR and feedback mode by CFB, from a fresh keystream as the standard defines them and otherwise from where the last call stopped; ciphertext stealing starts from the IV above two blocks and from the register up to that, and refuses a second shot and less than a block, changing nothing |
| `StreamContext.AesStreamCtx.Update` | src/wp_aes_stream.c:625-644 | Too little room also changes nothing; otherwise the same, mode by mode |
| `StreamSessions.Process` | src/wp_aes_stream.c:292-644 | Init and any updates of a counter or feedback context give out the mode of the standard over the whole message |
| `StreamSessions.StealAndReturn` | src/wp_aes_stream.c:292-644 | A message of more than one block stolen by one context comes back from another with the same key and IV, both then hold the same IV, and a second update is refused |
| `StreamModes.ThroughConcat` | src/wp_aes_stream.c:536-549 | Calls of the library, which is taken to keep unused keystream from one to the next, join: going on where the last chunk stopped is the same as one call |
| `StreamModes.StreamRoundTrip` | src/wp_aes_stream.c:526-582 | A message in any updates is the mode applied once, and its ciphertext in any other updates gives it back, with both ends in the same state |
| `Gcm.GctrPrefix` | src/wp_aes_aead.c:1492-1496 | A prefix enciphers to the prefix (section 6.5 of NIST SP 800-38D), which is why re-encrypting everything and emitting the tail is sound |
| `Gcm.GctrInvolution` | src/wp_aes_aead.c:1480-1485 | Enciphering twice gives the data back, which is why updates may decrypt by encrypting |
| `Gcm.CipherBehind` | src/wp_aes_aead.c:1492-1496 | Data enciphered behind other data is as on its own, under every key, if and only if there is none or the other data fills whole turns of the keystream |
| `Gcm.RunResult` | src/wp_aes_aead.c:1529-1579 | What any run of additional-data and data updates, in any order and from any state, has collected, emitted and put in the tag slot |
| `Gcm.SpooledIsOneShot` | src/wp_aes_aead.c:1407-1612 | From any encrypting session the outputs of any updates join up to the one-shot ciphertext, final succeeds unless a rejection is recorded, and the slot then holds the one-shot tag, or an old one when no data came and that was not fetched |
| `Gcm.TagCoversAllAad` | src/wp_aes_aead.c:1421-1460 | The tag kept after final is, under every key, the tag over all data and additional data if and only if no additional data arrives after the last data, and no old tag is kept |
| `Gcm.TrailingAadIsLost` | src/wp_aes_aead.c:1421-1460 | The input that shows it: one byte of data and then one of additional data keep the tag of the data alone |
| `Gcm.SpooledDecryption` | src/wp_aes_aead.c:1462-1490 | From any decrypting session updates emit the plaintext, and final accepts if and only if no rejection is recorded, and the given tag is the tag of all ciphertext and additional data or a tag of the context itself was not fetched |
| `Gcm.GcmRoundTrip` | src/wp_aes_aead.c:1407-1612 | Whatever the two splits, a receiver given the kept tag, at its length, gets the plaintext and accepts |
| `AeadSessions.Encrypt` | src/wp_aes_aead.c:1062-1612 | The calls of a message on the context itself: init, additional data and data in any calls, final and fetching the tag give one-shot ciphertext and tag |
| `AeadSessions.Decrypt` | src/wp_aes_aead.c:1062-1612 | Init, setting the tag, additional data and data in any calls give the plaintext, and final accepts if and only if the tag is right |
| `GcmMessages.RejectionIsRecorded` | src/wp_aes_aead.c:1463-1476 | Over every run of initialisations, new IVs, given and fetched tags, updates and finals, with any allocation failing, a rejection is recorded exactly when some final refused a tag; running out of memory records none |
| `GcmMessages.FinalAccepts` | src/wp_aes_aead.c:1421-1476 | After every such run final accepts if and only if no final before it refused a tag, it has the memory it needs, and the context encrypts, has a tag of its own that was not fetched, or was given the right tag; and exactly when it refuses and when it runs out of memory |
| `GcmMessages.RejectionSticks` | src/wp_aes_aead.c:1602-1604 | Once final has refused, it refuses after every run, whatever keys, IVs, tags and messages the run brings |
| `GcmMessages.MessagesAreAnswered` | src/wp_aes_aead.c:1407-1612 | Of any messages decrypted one after the other with enough memory, each with its key, IV and tag, one is accepted if and only if it and all before it are authentic or an own tag was not fetched |
| `GcmMessages.MessageIsEmitted` | src/wp_aes_aead.c:1602-1604 | A message is deciphered behind the data of all messages after the first refused one; it comes out as itself under every key if and only if it has no data or they fill whole turns of the keystream (2^36 bytes) |
| `GcmMessages.LaterMessageIsGarbled` | src/wp_aes_aead.c:1529-1604 | The input that shows it: after a wrong tag and a right message the next right message comes out wrong under some key |
| `GcmMessages.MissingMemoryIsForgotten` | src/wp_aes_aead.c:1423-1427 | A right message whose final has no memory is not answered, and the next one is accepted |
| `GcmMessages.RightTagIsRefused` | src/wp_aes_aead.c:1464-1470 | The input on which a right tag is refused: a one-byte message with a wrong tag, then the same message with its right tag |
| `GcmMessages.UnfetchedTagAcceptsAny` | src/wp_aes_aead.c:1421 | The input on which a wrong tag is accepted: a message encrypted without its tag being fetched, then any message to decrypt; fetching the tag first makes the answer that of the tag |
| `AeadContext.SpoolIsBounded` | src/wp_aes_aead.c:330-349 | After any inputs the spool is empty or strictly larger than what it holds, holds all of it, and was reallocated at most 1 + total/128 times |
| `AeadContext.AeadCtx.CacheIn` | src/wp_aes_aead.c:322-353 | The input is appended, the size follows the growth rule, and a failed allocation changes nothing |
| `AeadContext.AeadCtx.CacheAad` | src/wp_aes_aead.c:284-309 | The input is appended to the additional data; a failed allocation changes nothing |
| `AeadContext.AeadCtx.EncDecMore` | src/wp_aes_aead.c:1421-1498 | Re-enciphers the whole spool under the original IV, emits only the tail, and keeps the tag only when encrypting |
| `AeadContext.AeadCtx.EncDecDone` | src/wp_aes_aead.c:1407-1511 | Makes the missing tag or checks the given one, then empties spool and additional data; with a failed allocation it fails and still empties them |
| `AeadContext.AeadCtx.StreamUpdate` | src/wp_aes_aead.c:1541-1574 | Additional data, data or nothing by which buffers are given; a data update is one step of the abstract session; a failure emits nothing and has spooled the input exactly when only the working buffer was missing |
| `AeadContext.AeadCtx.StreamFinal` | src/wp_aes_aead.c:1591-1612 | The abstract final, with the recorded rejection, the failed allocation and the refused call in the middle of a TLS record |
| `AeadContext.AeadCtx.Init` | src/wp_aes_aead.c:1062-1085 | Success exactly when running, the key is set, the IV has the right length and the parameters are taken; the session and the record state change as in the abstract runs, so neither the tag slot nor a recorded rejection is touched |
| `AeadContext.AeadCtx.SetTag` | src/wp_aes_aead.c:469-497 | A given tag of at most 16 bytes goes into the slot, even of an encrypting context, which refuses it afterwards; only a decrypting context takes its length |
| `AeadContext.AeadCtx.FetchTag` | src/wp_aes_aead.c:430-442 | Gives the tag to an encrypting context that has a tag length, and marks it as fetched in any case |
| `AeadContext.CarryStops` | src/wp_aes_aead.c:889-895 | Clearing trailing 0xff bytes and adding one to the byte before them is adding one to the big-endian number |
| `AeadContext.IncrementAt` | src/wp_aes_aead.c:889-895 | The loop increments the field modulo its width and touches no other byte |
| `Gcm.IncrementAddsOne` | src/wp_aes_aead.c:889-895 | The value of the incremented counter is one more, or zero after the largest |
| `Gcm.AdvancedReturns` | src/wp_aes_aead.c:889-895 | A counter of n bytes is back where it was exactly after a multiple of 256^n steps |
| `Gcm.HandedOutFieldsAreDistinct` | src/wp_aes_aead.c:858-902 | Two calls of a run of incrementing calls hand out the same invocation field if and only if a multiple of 2^64 calls apart, and the fixed prefix never changes |
| `AeadContext.AeadCtx.SetIvLen` | src/wp_aes_aead.c:507-528 | Lengths of 1 to 16 are taken; the bytes of the buffer stay, and the IV is as many of them |
| `AeadContext.AeadCtx.GetRandIv` | src/wp_aes_aead.c:858-902 | Hands out the end of the current IV, keeps the IV as the original one, and advances only the last 8 bytes when asked to; refuses without key or generated IV |
| `AeadContext.AeadCtx.SetRandIv` | src/wp_aes_aead.c:913-936 | Replaces the end of the IV on the decrypting side only |
| `AeadContext.AeadCtx.SetFixedIv` | src/wp_aes_aead.c:947-1000 | Length -1 restores the whole IV; otherwise at least 4 bytes that leave 8, or are longer than the IV, are taken: the IV then starts with them and goes on with random bytes on the sending side and the old ones on the receiving side |
| `RecordRuns.GuardLeavesRoomUnlessLonger` | src/wp_aes_aead.c:963-966 | For parts of any length below 2^31 the guard asks for 4 fixed bytes and 8 after them if and only if the part is not longer than the IV; every longer one passes |
| `AeadSessions.GiveFixedPart` | src/wp_aes_aead.c:966-993 | Two contexts given the same 4 bytes have nonces that agree in all but the last 8, as the record round trip asks for |
| `AeadContext.AeadCtx.TlsInit` | src/wp_aes_aead.c:222-271 | Keeps the header with the length corrected for explicit IV and, when decrypting, tag; zero when the length is too short |
| `AeadContext.AeadCtx.TlsCipher` | src/wp_aes_aead.c:1174-1248 | Refusals, sealing and opening in place, the output length, and plaintext cleared when the tag is wrong; an acceptable record is never refused for the count of records |
| `RecordRuns.CountStaysLow` | src/wp_aes_aead.c:242 | Over every run of record, IV, length and initialisation calls the count of records is at most one, since every header sets it back |
| `RecordRuns.NeverTooMany` | src/wp_aes_aead.c:1191-1193 | So a record is sealed exactly when it is acceptable; the check for too many never decides |
| `RecordRuns.SameNonceAgain` | src/wp_aes_aead.c:1197-1199 | Over every such run a record has the key and nonce of an earlier one if and only if the key is the same, and the IV last put in place has the same length and fixed part and its field plus the incrementing calls since is the old field modulo 2^64 |
| `RecordRuns.RecordsShareNonce` | src/wp_aes_aead.c:1197-1199 | With no key set, no new IV and no other IV length between them, two records share their nonce if and only if the number of incrementing calls between them is a multiple of 2^64, as with none |
| `RecordRuns.SenderKeepsIv` | src/wp_aes_aead.c:1197-1199 | Headers and records of a sender leave the IV as it is; only incrementing calls move it on |
| `RecordRuns.TwoRecordsShareNonce` | src/wp_aes_aead.c:1197-1219 | The input that shows it: two empty records, each after its header; one incrementing call between them, or a longer IV, gives them different nonces |
| `GcmTls.BothEndsAgree` | src/wp_aes_aead.c:222-271 | Sender and receiver authenticate the same header with the plaintext length |
| `GcmTls.FieldIsBigEndian` | src/wp_aes_aead.c:244 | The length is read and written as a big-endian number |
| `GcmTls.CorrectedExactly` | src/wp_aes_aead.c:234-264 | A header is taken if and only if it has 13 bytes and a length with room for the explicit IV and, when decrypting, the tag; only the length changes, by that much |
| `GcmTls.SealedParts` | src/wp_aes_aead.c:1197-1219 | A sealed record is the last 8 bytes of the nonce, the ciphertext and its tag |
| `GcmTls.OpenedExactly` | src/wp_aes_aead.c:1203-1229 | A record opens if and only if its last 16 bytes are the tag of the bytes between under the rebuilt nonce, and then to their plaintext |
| `GcmTls.RecordRoundTrip` | src/wp_aes_aead.c:1174-1248 | With equal fixed parts the receiver rebuilds the nonce of the sender and gets the plaintext (the nonce of section 3 of RFC 5288) |
| `GcmTls.TlsRoundTrip` | src/wp_aes_aead.c:1174-1248 | Both ends together: for every plaintext that fits the length field the record opens to it |
| `AeadSessions.SendRecord` | src/wp_aes_aead.c:947-1248 | The calls themselves: fixed part, header and record on both contexts give the payload back in place and the sender nonce at the receiver |
| `Integers.PrimeValue` | src/wp_ecx_exch.c:207-212 | The stored constant is 2^255 - 19 |
| `Integers.BorrowStep` | src/wp_ecx_exch.c:260-265 | One byte of the subtraction keeps the value relation between suffixes, borrow included |
| `Integers.Subtract` | src/wp_ecx_exch.c:260-265 | Secret = prime + difference, up to a final borrow of 2^256 |
| `Integers.AtLeastPrime` | src/wp_ecx_exch.c:266-272 | The branch-free comparison is all ones exactly when the secret is at least the prime |
| `Integers.SelectBytes` | src/wp_ecx_exch.c:273-277 | All bytes of one array or all of the other, by the mask |
| `Integers.ReverseInPlace` | src/wp_ecx_exch.c:282-287 | The array is reversed |
| `Integers.ReduceSecret` | src/wp_ecx_exch.c:252-288 | For every 32-byte secret s the little-endian result is s - p if s >= p and s otherwise (section 5 of RFC 7748) |
| `Integers.ReducedIsRemainder` | src/wp_ecx_exch.c:253-254 | Of the numbers of 32 bytes exactly those below 2p are reduced to their remainder modulo p |
| `Integers.AtMost` | src/wp_ecx_sig.c:456-463 | The descending loop passes exactly when the little-endian scalar is at most the order |
| `Integers.CheckScalar` | src/wp_ecx_sig.c:451-464 | With the length check: what a signature must satisfy before verification |
| `Integers.OrderValues` | src/wp_ecx_sig.c:425-430 | The stored bytes are 2^252 + 27742317777372353535851937790883648493 and, for Ed448 (lines 633-642), 2^446 - 13818066809895115352007386748515426880336692474882178609894547503885 |
| `Integers.ScalarCheckIsStrictUnlessEqual` | src/wp_ecx_sig.c:667-677 | For any stored order the check is the strict comparison if and only if the scalar bytes are not the order itself |
| `Integers.EdChecksAreStrictUnlessEqual` | src/wp_ecx_sig.c:454-464 | With the orders as numbers: the check agrees with sections 5.1.7 and 5.2.7 of RFC 8032 if and only if the scalar is not the group order |
| `Integers.OrderItselfPasses` | src/wp_ecx_sig.c:454-464 | The input on which it does not: the Ed25519 order as scalar passes |
| `Integers.Ed448OrderItselfPasses` | src/wp_ecx_sig.c:667-677 | So does the Ed448 order |
| `Integers.PadSecret` | src/wp_dh_exch.c:300-307 | The overlapping move and the zero fill keep the big-endian value while the length becomes the maximum; bytes past it stay |
| `References.StartIsConserved` | src/wp_dh_kmgmt.c:388-427 | With no key and no context the books balance |
| `References.DropConserves` | src/wp_dh_exch.c:191-192 | Letting a slot go keeps the books balanced, and frees the key exactly when this was the last reference |
| `References.TakeConserves` | src/wp_dh_exch.c:193-199 | Taking a reference to a live key keeps them balanced |
| `References.ReleaseConserves` | src/wp_dh_kmgmt.c:434-464 | So does an owner giving up a handle |
| `References.RunConserves` | src/wp_dh_exch.c:80-206 | Over every run of creations, releases, inits, set-peers, duplications and frees, with any locks failing: every count is owner handles plus key holders plus peer holders, no context points at a freed key, and a key is freed once, exactly when that sum is zero |
| `References.StaysFreed` | src/wp_dh_kmgmt.c:453-462 | A freed key is never freed again in any run |
| `References.DropUndoesShare` | src/wp_dh_exch.c:127-142 | Taking a reference and letting it go changes nothing at all |
| `References.FailedDupChangesNothing` | src/wp_dh_exch.c:116-169 | A duplication that fails at any point leaves every count as it was, and freeing a duplicate undoes the duplication |
| `DhKeys.Dh.GetSize` | src/wp_dh_kmgmt.c:316-319 | The least number of bytes with room for all bits |
| `DhKeys.Dh.UpRef` | src/wp_dh_kmgmt.c:272-297 | One more reference, or none and failure when the lock fails |
| `DhKeys.Free` | src/wp_dh_kmgmt.c:434-464 | One reference fewer whatever the lock does, and freed exactly at zero |
| `DhKeys.New` | src/wp_dh_kmgmt.c:388-427 | All of the four steps must succeed; the key starts with one reference for its owner |
| `DhKeys.ReleaseOwned` | src/wp_dh_kmgmt.c:434-464 | The heap changes by exactly the abstract release step |
| `DhKeys.Init` | src/wp_dh_exch.c:180-206 | The heap changes by exactly the abstract init step: same key kept, other key let go first, no key after a failed lock |
| `DhKeys.SetPeerKey` | src/wp_dh_exch.c:432-459 | The same for the peer slot, and nothing when the parameters do not match |
| `DhKeys.NewContext` | src/wp_dh_exch.c:80-92 | A context is made exactly when running and memory is there, and holds nothing |
| `DhKeys.Duplicate` | src/wp_dh_exch.c:116-169 | The heap changes by exactly the abstract duplication; a copy is returned exactly when every step succeeds |
| `DhKeys.FreeContext` | src/wp_dh_exch.c:99-107 | The heap changes by exactly the abstract freeing of a context |

## Left out

- wolfCrypt itself: AES rounds, GHASH, curve arithmetic, hashing and key agreement are abstract, and its calls succeed except for a wrong GCM tag.
- The partial use of a keystream block is kept by the library between calls; `StreamModes` states how, in place of the library's code, and `StreamModes.ThroughIsOneShot`, `CtrIsCounted` and `CfbIsChained` show that this is what the standard defines.
- Input pointers are given by their contents: input and output are the same bytes or disjoint, and partly overlapping buffers are not modelled.
- The IV, original IV and chaining registers, additional data and temporary outputs are sequences rather than arrays.
- Lengths the code casts to a 32-bit int are taken to fit it; TLS records are shorter than 2^31 bytes.
- A final or update that fails midway without setting its output length is given the length zero.
- Timing and cache behaviour of the constant-time code: only what it computes is stated.
- Unsupported modes of the update calls (for instance DES3 outside CBC) are refused in `BlockContext.BlockCtx.DoIt` but not followed through updates.
- BlockContext.BlockCtx.Init: the settings that parameters change are not modelled, only whether they are taken.
- BlockContext.BlockCtx.Update: a TLS record starts with an empty buffer, as one in place would otherwise overwrite input that is still to be read; a DES3 record to open has a block, as the code reads the last byte unconditionally.
- BlockContext.BlockCtx.UpdateOpening: a DES3 record has a block, for the same reason.
- BlockContext.BlockCtx.Des3DecRecord: a DES3 record has a block, for the same reason.
- TlsCbc.ScanMac: slot numbers pass through bytes where the code masks a wider word, as they stay below 65.
- StreamContext.AesStreamCtx.Decrypt: needs room for two blocks when deciphering a single one, as it writes them.
- AeadContext.AeadCtx.SetTag: a tag length given without a tag is at most 16, as the library accepts no more.
- AeadContext.AeadCtx.SetFixedIv: the fixed part fits the 16 bytes of the IV buffer; the sender's library call refuses a part longer than the IV.
- AeadContext.AeadCtx.SetRandIv: the given part is at most as long as the IV, as the code would otherwise write before the buffer.
- AeadContext.AeadCtx.TlsCipher: has an IV of at least 8 bytes, as opening would otherwise write before the buffer.
- GcmMessages.FinalAccepts: is about runs outside TLS records; in the middle of one final refuses, see `AeadContext.AeadCtx.StreamFinal`.
- AeadContext.AeadCtx.GetRandIv: an incrementing call has an IV of at least 8 bytes, as the code would otherwise count in the field before the buffer.
- Gcm.GcmRoundTrip: is about sessions without a recorded rejection or an own tag that was not fetched; `GcmMessages.FinalAccepts` covers those.
- DhKeys.Duplicate: of the remaining fields only the padding flag is copied; the KDF settings have no part in the properties.
- DhKeys.Free: is one step; interleavings inside a call that runs without its lock are not modelled.
- The build in which the library streams GCM, AES-CCM and AES key wrap: library calls with little logic around them.
- ECC, ECX and KDF key references: the same pattern as the DH keys.
- One-shot cipher calls, parameter plumbing, dispatch tables, encoders, decoders, PEM, file store, callbacks and logging: glue or parsing.
- HMAC, CMAC, GMAC, HKDF, DRBG and digests: they pass data on to the library and keep no state of their own beyond it.
