# A verified model of the hardware Bitcoin wallet's core

This project models, in Dafny, the platform-independent core of the hardware Bitcoin wallet firmware: its
multi-precision and elliptic curve arithmetic, the streaming transaction parser and the DER printer, the packet
protocol with its approvals, the encrypted storage with the wallet records on top of it, the protocol buffer codec,
the two text encodings shown to the user, the serial port and the sample histogram. Code that works by changing arrays
and static variables is modelled by methods on arrays and classes, each proved against a function or an invariant; what
that function or invariant means is then proved by lemmas.

`dafny verify dfyconfig.toml` checks everything.

| file | contents |
|---|---|
| `Arith`, `Bytes`, `Wrappers` | remainders, byte strings and the number a byte string stands for, optional values |
| `Bignum`, `BigField`, `Reduction` | `bignum256.c`: carry and borrow loops, schoolbook product, reduction by the complement |
| `PrimeField`, `Curve` | Fermat's little theorem, the chord-and-tangent law on y^2 = x^3 + 7 |
| `Ecdsa`, `Secp256k1` | `ecdsa.c`: inversion, Jacobian arithmetic, scalar multiplication, signing, the curve parameters |
| `TransactionFormat`, `TransactionLaws`, `TransactionBinding`, `TransactionParser` | `transaction.c`: the accepted language, what acceptance means, what the hashes pin down, the parser itself |
| `Der`, `Signing` | the DER envelope and signTransaction() |
| `Protocol` | `stream_comm.c`: packets, interjections, approvals |
| `Aes`, `AesTable`, `Xex`, `Storage`, `Wallet` | `aes.c`, `xex.c`, `wallet.c`, `prandom.c` |
| `BaseConversion`, `TextEncoding` | `baseconv.c` |
| `ProtobufFormat`, `ProtobufLaws`, `ProtobufUnknown`, `ProtobufStreams`, `ProtobufDecoder` | `pb_encode.c`, `pb_decode.c` |
| `Usart` | `avr/usart.c` |
| `Packing`, `Histogram` | `statistics.c` |

## Where the code falls short of what is said about it

- `bigMultiply` is said to end with the upper 256 bits zero (bignum256.c:448). It does not always: the last pass can
  carry into byte 32, which is then ignored. `Reduction.ProductModP` and `Reduction.ProductModN` state for all products
  when the result is the true residue; `ProductModPFails` and `ProductModNFails` give operands for which it is not. No
  pass is needed beyond the two or three there are, and the result is right unless the true residue lies in [c, c^2 + c)
  modulo p, or in [c, 2c) modulo the group order, where c is the complement of the modulus.
- With room for no wallet at all, `initWallet` and `newWallet` report no error although nothing is loaded
  (wallet.c:316-319, wallet.c:1166-1186); `Wallet.Wallets.InitWallet` states it.
- `makeNewAddress` counts an address before its key is derived, so that the count goes up even if there is no key
  (wallet.c:813-829); `Wallet.Wallets.MakeNewAddress` states it.
- A SignTransaction message can be answered more than once, or answered and then refused
  (stream_comm.c:615-677). `Protocol.AnsweredOnceIff` says which messages are answered once, given the remembered hash;
  `Protocol.AnsweredTwice` gives one that is not.
- A string that fills its field is encoded but not decoded (pb_encode.c:559-571, pb_decode.c:860-874);
  `ProtobufLaws.TextTrip` gives the exact condition, which includes a 32-bit wrap-around, and `ProtobufLaws.FullTextLost`
  the strings that are lost.
- A message type without fields refuses an unknown field with number 0 instead of skipping it, because it takes the mark
  at the end of its table for that field (pb_decode.c:364-378, pb.h:338); `ProtobufDecoder.TagOfNothing` says what it
  does with every field, and `ProtobufDecoder.FieldInNothing` gives fields of both kinds.
- An encrypted read or write of nothing should do nothing and succeed. It does so exactly at multiples of 16 other than
  0, however far outside the partition (`Storage.NothingIsFree`). Inside a block it reads that block; at address 0 it
  reads all of them and is refused; elsewhere outside the whole blocks of the partition it is refused
  (xex.c:271, xex.c:328; `Storage.EmptyRangeIff`, `Storage.EmptyRangeTouches`, `Storage.NothingAtZero`).

## Model

| member | source | states |
|---|---|---|
| Bignum.BigCompareVariableSize | bignum256.c:69-102 | the branch-free byte comparison returns the order of the two numbers |
| Bignum.BigIsZeroVariableSize | bignum256.c:121-133 | 1 exactly for the number zero |
| Bignum.SwapEndian256 | bignum256.c:164-175 | the 32 bytes are reversed and nothing else changes |
| Bignum.BigAddVariableSizeNoModulo | bignum256.c:201-215 | result plus carry times 256^size is the sum, also when the result aliases an operand |
| Bignum.BigSubtractVariableSizeNoModulo | bignum256.c:226-240 | the borrow says which operand is smaller and the result is the difference modulo 256^size |
| Bignum.BigShiftRightNoModulo | bignum256.c:334-348 | the number is halved |
| Bignum.BigMultiplyVariableSizeNoModulo | bignum256.c:366-405 | the schoolbook product is the exact product |
| Bignum.RowHasNoCarry | bignum256.c:385-403 | after every row the high carry is zero and the partial product is exact |
| BigField.Field.BigModulo | bignum256.c:262-275 | one conditional subtraction reduces modulo n, because n is above 2^255 |
| BigField.Field.BigAdd | bignum256.c:284-303 | sum modulo n of reduced operands |
| BigField.Field.BigSubtract | bignum256.c:313-328 | difference modulo n of reduced operands |
| BigField.Field.ReductionPass | bignum256.c:433-446 | one pass replaces the upper part H by c times H, computed inside the remaining bytes |
| BigField.Field.ReduceAll | bignum256.c:429-447 | the loop ends, and leaves the value of the passes one after the other |
| BigField.Field.BigMultiply | bignum256.c:416-453 | the result is the passes applied to the full product, cut to 256 bits and reduced once |
| Reduction.FoldKeepsResidue | bignum256.c:433-446 | a pass keeps the value modulo n, for every n and its complement |
| Reduction.PassesP | bignum256.c:429-447 | modulo p two passes drop no byte, keep the residue and end below 2^256 + c^2 |
| Reduction.PassesN | bignum256.c:429-447 | the same for the group order and three passes |
| Reduction.ProductModP | bignum256.c:416-453 | the result is the true residue modulo p iff the last value is below 2^256, which holds outside [c, c^2 + c) |
| Reduction.ProductModN | bignum256.c:416-453 | the same for the group order, with the window [c, 2c) |
| Reduction.ProductModPFails | bignum256.c:448-452 | reduced operands whose product comes out wrong modulo p |
| Reduction.ProductModNFails | bignum256.c:448-452 | reduced operands whose product comes out wrong modulo the group order |
| PrimeField.Fermat | bignum256.c:456-505 | a^(p-1) = 1 for every a that p does not divide |
| PrimeField.InverseLaw | bignum256.c:456-505 | a^(p-2) is the inverse of a |
| Ecdsa.Signer.LadderAll | bignum256.c:475-503 | the ladder keeps r = a^e and temp = a^(e+1) for the bits e consumed, up to e = n - 2 |
| Ecdsa.Signer.BigInvert | bignum256.c:462-505 | the result is op1^(n-2), also when it is written over op1 |
| Curve.DoubleLaw | ecdsa.c:149-188 | the doubling formulas stand for the affine tangent law |
| Curve.AddLaw | ecdsa.c:203-273 | the mixed addition formulas stand for the affine chord law |
| Curve.RepUnique | ecdsa.c:122-137 | a Jacobian triple stands for one affine point, the one the division gives |
| Curve.JacobianEquation | ecdsa.c:41-61 | y^2 = x^3 + 7 z^6 holds of a finite triple iff its affine point is on the curve |
| Curve.AddOnCurve | ecdsa.c:203-273 | the curve is closed under the chord-and-tangent law in all its cases |
| Curve.ChordAndTangent | ecdsa.c:149-273 | the reflected sum lies on the line through the two points, the reflected double on the tangent |
| Curve.FirstMultiples | ecdsa.c:289-338 | the multiples by 0, 1, 2, 3 and 4 are those of repeated addition |
| Curve.MultipleOnCurve | ecdsa.c:297-338 | so every multiple of a point on the curve is on the curve |
| Ecdsa.Signer.PointDouble | ecdsa.c:149-188 | in place, the triple afterwards stands for twice the point, infinity and y = 0 included |
| Ecdsa.Signer.PointAdd | ecdsa.c:203-273 | the accumulator afterwards stands for the sum in every case, redirected writes never reach it, and an infinite one has x or z zero |
| Ecdsa.AddedIsAdd | ecdsa.c:239-272 | with different abscissas the formulas give the sum and a non-zero z |
| Ecdsa.DoubledIsDouble | ecdsa.c:155-187 | with non-zero y and z the formulas give the double and a non-zero z |
| Ecdsa.Signer.JacobianToAffine | ecdsa.c:122-137 | division by z^2 and z^3 gives the affine point |
| Ecdsa.Signer.PointMultiply | ecdsa.c:297-338 | for every 32-byte k the result is k times the point by its binary expansion, and on the curve if the point is; an infinite multiple of a finite point gets abscissa 0 |
| Ecdsa.Signer.EphemeralX | ecdsa.c:416-422 | r is x(kG) mod n, or 0 if kG is infinite, so that such a nonce is passed over |
| Ecdsa.SigningEquation | ecdsa.c:427-432 | k times the computed s is hash + r * key modulo n |
| Ecdsa.NegatedEquation | ecdsa.c:438-444 | replacing s by n - s negates that equation |
| Ecdsa.Signer.EcdsaSign | ecdsa.c:377-447 | the first usable nonce k gives a finite kG, r = x(kG) mod n, 1 <= r < n, 1 <= s <= n/2 and k s = +-(hash + r key); the nonces passed over were unusable |
| Secp256k1.ParameterValues | ecdsa.c:63-85 | the byte tables stand for p, n and their complements |
| Secp256k1.BasePointOnCurve | ecdsa.c:87-99 | the base point satisfies the curve equation |
| Secp256k1.SignerParameters | ecdsa.c:277-287 | the parameters meet what the signer needs, given that p and n are prime |
| TransactionParser.Parser.GetTransactionBytes | transaction.c:110-144 | reads all of the bytes or none, and feeds exactly those to the hashes that listen |
| TransactionParser.Parser.GetVarInt | transaction.c:172-205 | reads the variable-sized integer the format describes |
| TransactionParser.Parser.Book | transaction.c:418-435 | the 8-byte fee is added to or subtracted from exactly, or the overflow is reported |
| TransactionParser.Parser.AllInputs | transaction.c:317-372 | inputs are parsed as the format says; one transcript has them whole, the other without scripts |
| TransactionParser.Parser.AllOutputs | transaction.c:407-520 | outputs are parsed, booked and shown as the format says |
| TransactionParser.Parser.ParseTransactionInternal | transaction.c:225-576 | one transaction: outcome, hashes and ledger are those of the format |
| TransactionParser.Parser.ParseTransactions | transaction.c:615-648 | on every outcome exactly `length` bytes are taken; status, both hashes, shown lines and fee are those of the parsed stream |
| TransactionLaws.StreamSound | transaction.c:225-576 | an accepted stream is the printed form of standard transactions, and fee + outputs = selected referenced outputs as natural numbers |
| TransactionLaws.StreamComplete | transaction.c:225-576 | every printed stream that meets the limits is accepted and read as what was printed |
| TransactionBinding.ReferencesMatch | transaction.c:278-383 | the references are the spending inputs in order, by output number and id, unless two strings collide |
| TransactionBinding.TranscriptUnique | transaction.c:317-520 | equal transaction transcripts have the same outpoints, the same outputs and the same counts of both |
| TransactionBinding.TranscriptIgnoresScripts | transaction.c:340-361 | two spending transactions have the same transaction transcript iff they differ in input scripts only |
| TransactionBinding.Rescripted | transaction.c:340-361 | an accepted stream with other input scripts is accepted again, with the same transcript, lines and fee |
| TransactionBinding.TemplatesShown | transaction.c:457-510 | a payment to a key hash is shown with version 0x00, one to a script hash with version 0x05, for every hash |
| TransactionBinding.PayeeUnique | transaction.c:457-510 | an address is shown for one standard script only |
| TransactionBinding.LinesUnique | transaction.c:407-520 | the lines shown determine the amounts and scripts paid, in order |
| TransactionBinding.ShownIsPaid | transaction.c:407-520 | two accepted streams that look the same on the display pay the same amounts to the same scripts |
| TransactionBinding.SameTranscriptSameFee | transaction.c:225-576 | equal transaction transcripts show the same outputs and the same fee, unless two strings collide |
| Der.ContentsValue | transaction.c:679-737 | the pruned contents stand for the number and are minimal |
| Der.MinimalIsShortest | transaction.c:702-706 | no shorter INTEGER has the same value (section 8.3 of X.690) |
| Der.DecodeEncode | transaction.c:674-743 | strict decoding of the encoding gives back r and s |
| Der.EncodeSize | transaction.c:674-743 | 9 to 73 bytes |
| Der.LowSSize | transaction.c:674-743 | at most 72 bytes for low s |
| Der.Prune | transaction.c:708-737 | leading zeros are removed in place, all of them and no more |
| Der.EncapsulateSignature | transaction.c:674-743 | the buffer starts with the encoding and the length is returned |
| Signing.SignTransaction | transaction.c:762-770 | the bytes decode to the r and s of an ECDSA signature of the hash, in at most 72 bytes |
| Protocol.Wire.ButtonInterjection | stream_comm.c:419-470 | permission iff the host acknowledged with a well-formed packet and the user did not deny; what was said either way |
| Protocol.Wire.OtpInterjection | stream_comm.c:532-589 | permission iff the host sent back the displayed one-time password |
| Protocol.Wire.SignTransactionCallback | stream_comm.c:600-677 | what is displayed, asked, signed and remembered, for every parse outcome, remembered hash and answer |
| Protocol.Wire.ReceiveSignTransaction | stream_comm.c:1086-1091 | fields in any order and number: everything that is shown, asked, signed, refused and remembered follows from the fields, the remembered hash and the answers to come |
| Protocol.ConversationShows | stream_comm.c:600-677 | what goes on the display are the transactions of the fields that are read, in order |
| Protocol.ConversationSigns | stream_comm.c:654-675 | every signature is for the transaction of a field that is read and is on the display, with the key of the last handle before that field |
| Protocol.HandleThenDataSigns | stream_comm.c:600-677 | a handle and an approved transaction: shown, asked about and signed with that handle's key |
| Protocol.AnsweredOnceIff | stream_comm.c:600-677 | a message is answered once iff it brings no transaction, or one with a handle and is well-formed as far as it is read; never left without an answer |
| Protocol.AnsweredTwice | stream_comm.c:622-627 | an empty transaction without a handle is answered twice |
| Protocol.HandleThenData | stream_comm.c:1086-1091 | a handle followed by a transaction is answered once, whatever the transaction |
| Protocol.OtherInputsNotAsked | stream_comm.c:629-639 | after a transaction is approved nobody is asked about it again, whatever scripts its inputs have |
| Protocol.Wire.SignsAgain | stream_comm.c:629-674 | such a transaction is shown and signed with no question in between |
| Protocol.Wire.ReceiveInitialize | stream_comm.c:904-957 | a well-formed Initialize forgets the approved hash whatever the wallet answers |
| Protocol.Wire.ReceiveLoadWallet | stream_comm.c:1093-1119 | what is done and said, from the wallet's results and the password packet |
| Protocol.LoadsAndAnswers | stream_comm.c:1093-1119 | a well-formed LoadWallet loads, a second time iff nothing was found and the host sent a password, and success is answered iff the last load succeeded |
| Protocol.ButtonRequests | stream_comm.c:1013-1057 | the requests that one button press allows, their consent and their answers |
| Protocol.OtpRequests | stream_comm.c:995-1011 | the requests that need a button press and the one-time password |
| Protocol.OpenRequests | stream_comm.c:1059-1084 | the requests that need no consent, and which packet types are no requests |
| Protocol.ConsentMeans | stream_comm.c:419-589 | what counts as a granted press and as a matching password, and what is refused outright |
| Protocol.PlainAnswers | stream_comm.c:904-993 | what Ping, Initialize and unknown packets are answered with |
| Protocol.OnlyWhatIsRequested | stream_comm.c:875-1329 | nothing is performed but what a packet requests, and that iff the answers to come grant it; no other packet signs |
| Protocol.Wire.ProcessPacket | stream_comm.c:875-1329 | everything one packet makes the device say, do, remember and use up follows from the packet, the remembered hash and the answers to come; the conversation stays in turn, for SignTransaction iff there is one answer; the invariant is kept |
| Protocol.Wire.Run | stream_comm.c:875-1329 | over any number of packets the log is what the packets, presses, passwords and wallet results make the device say, one after the other, and every event stays justified |
| Protocol.SignedAsShown | stream_comm.c:600-677 | every signature is for a transaction with the inputs, outputs and fee of one that was on the display when the user accepted, with no Initialize in between, or SHA-256 collides |
| Protocol.OnePressOneOperation | stream_comm.c:419-470 | guarded operations never outnumber accepted button presses |
| Aes.Linear | aes.c:70-125 | the six GF(2^8) multiplications are linear |
| Aes.InvMixMix | aes.c:177-234 | the rows of the inverse matrix undo the rows of the matrix |
| Aes.InvSboxSbox | aes.c:31-66 | the inverse table undoes the table |
| AesTable.SboxIsAffineInverse | aes.c:31-48 | every entry of the S-box is the affine image of the inverse in GF(2^8) |
| AesTable.ConstantProducts | aes.c:70-125 | the six multiplications are products of polynomials modulo x^8 + x^4 + x^3 + x + 1 |
| Aes.ShiftRowsAt | aes.c:136-164 | row r moves r places to the left |
| Aes.MixColumnsAt | aes.c:167-199 | columns are multiplied by 2, 3, 1, 1 and its rotations |
| Aes.ShiftOrInvShiftRows | aes.c:136-164 | both modes are substitution and row shift as FIPS 197 defines them |
| Aes.MixSubColumns | aes.c:167-199 | the fused pass is SubBytes, ShiftRows and MixColumns |
| Aes.InvMixSubColumns | aes.c:202-240 | the fused inverse undoes the three in reverse order |
| Aes.InvRoundRound | aes.c:136-240 | a round is undone by its inverse, the last one included |
| Aes.RoundConstants | aes.c:257-260 | the table of round constants holds the powers of x |
| Aes.ExpandedKeyBytes | aes.c:269-296 | every byte of the expanded key from earlier ones, as section 5.2 of FIPS 197 has it |
| Aes.AesExpandKey | aes.c:269-296 | the key schedule of section 5.2 of FIPS 197 |
| Aes.CipherRounds | aes.c:305-326 | a key addition, nine whole rounds and one without MixColumns |
| Aes.AesEncrypt | aes.c:305-326 | the cipher, round by round |
| Aes.AesDecrypt | aes.c:335-352 | the inverse cipher, round by round |
| Aes.DecryptEncrypt | aes.c:305-352 | decryption undoes encryption for every block and every expanded key |
| Xex.DoubledIsTimesX | xex.c:53-71 | doubling is multiplication by x modulo x^128 + x^7 + x^2 + x + 1, coefficient by coefficient |
| Xex.DoubleInGF | xex.c:53-71 | the in-place loop doubles |
| Xex.XexEnDecrypt | xex.c:86-111 | the mask is E(n) doubled seq times, and both directions use it |
| Xex.OneDoubling | xex.c:86-111 | E(x + m) + m, with m twice the tweak encrypted under the second half of the key |
| Xex.XexRoundTrip | xex.c:86-111 | decryption undoes encryption for every tweak, count and key |
| Storage.TweakIsAddress | xex.c:286-287 | the tweak of a block stands for its address, so different blocks have different tweaks |
| Storage.ViewUpdate | xex.c:280-300 | rewriting one block's ciphertext changes that block of the plaintext view and nothing else |
| Storage.ViewIsLocal | xex.c:330-351 | the view of some blocks depends on the ciphertext of those blocks |
| Storage.Store.EncryptedNonVolatileWrite | xex.c:259-303 | any address and length: the view changes in exactly [address, address + length), or in a prefix of it on an error; other ciphertext is untouched; which ranges are refused and how many blocks are touched |
| Storage.Store.EncryptedNonVolatileRead | xex.c:316-354 | any address and length: the slice of the view, or an error, exactly when the range is refused |
| Storage.AddressableIff | xex.c:269-276 | a non-empty range is accepted iff it ends inside the whole blocks of the partition |
| Storage.EmptyRangeIff | xex.c:269-276 | an empty range is accepted iff it is not at address 0 and begins a block or lies inside a block of the partition |
| Storage.EmptyRangeTouches | xex.c:269-280 | how many blocks are read for an empty range at every address |
| Storage.NothingIsFree | xex.c:269-280 | an empty range is accepted without touching a block iff its address is a multiple of 16 other than 0 |
| Storage.NothingAtZero | xex.c:271-280 | an empty range at address 0 is refused after every block was read; one at the end of the address space is accepted |
| Storage.Store.IsEncryptionKeyNonZero | xex.c:212-231 | whether some byte of either key is not zero |
| Wallet.Wallets.CalculateWalletChecksum | wallet.c:170-192 | the hash of everything but the checksum field |
| Wallet.Wallets.ReadWalletRecord | wallet.c:201-233 | the record that the current key decrypts at a slot |
| Wallet.Wallets.WriteCurrentWalletRecord | wallet.c:240-263 | the slot then holds the current record and no byte outside it changed |
| Wallet.Wallets.InitWallet | wallet.c:306-368 | loaded iff the password opens the slot, with exactly that record; every error code |
| Wallet.Wallets.UninitWallet | wallet.c:374-383 | nothing is loaded and the key cache is empty |
| Wallet.Wallets.SanitisePass | wallet.c:441-498 | one pass fills the area with zeros, ones or random numbers, byte by byte |
| Wallet.Wallets.SanitiseNonVolatileStorage | wallet.c:398-563 | nothing outside the area changes on any outcome; on success it holds the random bytes of the last pass, with every version field clear; what each error means |
| Wallet.Wallets.UpdateWalletVersion | wallet.c:601-618 | marked encrypted iff the key is not zero; a hidden wallet is not marked |
| Wallet.Wallets.DeleteWallet | wallet.c:630-652 | unloads, fills one slot with random bytes and leaves every other byte alone |
| Wallet.Wallets.NewWallet | wallet.c:675-783 | every error code; on success loaded, with every byte of the record given by the name, the seed or the random numbers drawn, and the password; a hidden wallet's open part is untouched; on failure no byte changed |
| Wallet.NewRecordFields | wallet.c:709-771 | a new wallet has no addresses, the given seed or two random numbers, its name and a random UUID |
| Wallet.Wallets.MakeNewAddress | wallet.c:795-830 | the stored count goes up by one and nothing else of the record changes; the handle is the new count |
| Wallet.Wallets.GetPrivateKey | wallet.c:971-996 | every error code; the key is a function of the loaded seed and the handle, whatever was cached |
| Wallet.Wallets.GenerateDeterministic256 | prandom.c:450-497 | a valid cached key is always that of the loaded seed |
| Wallet.Wallets.ChangeEncryptionKey | wallet.c:1005-1031 | the same record but for its marking, which follows the new key, under the new password; a hidden wallet's open part is untouched |
| Wallet.Wallets.ChangeWalletName | wallet.c:1040-1059 | only the name changes; refused for a hidden wallet |
| Wallet.Wallets.Reload | wallet.c:306-368 | loading again with the password in use gives the same record |
| Wallet.Wallets.Format | stream_comm.c:1121-1145 | changes nothing if the entropy pool cannot be stored; else wipes the partition and unloads, whatever came of it |
| Wallet.Wallets.Run | wallet.c:306-1059 | over any commands the loaded record is the decrypted, checksum-valid record of its slot, a slot that seems empty keeps its open part unless openly changed, and a slot that no command works on keeps its bytes and what every password opens there |
| Wallet.OtherSlotsUntouched | wallet.c:240-263 | an operation on one slot leaves every other slot's bytes, passwords and records as they were |
| BaseConversion.BigDivide | baseconv.c:68-94 | exact quotient and remainder for every dividend |
| BaseConversion.DivideBit | baseconv.c:83-91 | one trial subtraction halves the weight of what is left |
| BaseConversion.ShiftLists | baseconv.c:27-35 | the two lists hold 58 and 10 shifted by 7 to 0 bits |
| TextEncoding.AmountToText | baseconv.c:103-156 | the buffer holds the stripped decimal text |
| TextEncoding.AmountRoundTrip | baseconv.c:103-156 | the text of every 64-bit amount is canonical and stands for the amount |
| TextEncoding.HashToAddr | baseconv.c:170-243 | the buffer holds the Base58 text of version, hash and checksum |
| TextEncoding.Alphabet | baseconv.c:41-48 | the 58 characters |
| TextEncoding.PayloadBytes | baseconv.c:181-191 | version, hash and checksum, byte by byte |
| TextEncoding.AddressRoundTrip | baseconv.c:170-243 | the text decodes to the 25-byte payload, leading zero bytes included |
| TextEncoding.AddressLength | baseconv.c:170-243 | at most 35 characters |
| ProtobufStreams.OutputStream.EncodeVarint | pb_encode.c:351-368 | seven bits to a byte, or an error iff the stream is full |
| ProtobufStreams.EncodeSubmessage | pb_encode.c:460-503 | the size found by the counting stream is the size then written |
| ProtobufStreams.EncodePacked | pb_encode.c:123-165 | a packed array with its length |
| ProtobufStreams.EncodeMessage | pb_encode.c:306-341 | succeeds iff the message can be printed and fits; a counting stream counts exactly what a writing one writes |
| ProtobufStreams.MessageSize | pb_encode.c:306-341 | the size of a message without writing it |
| ProtobufStreams.InputStream.DecodeVarint | pb_decode.c:183-203 | the value modulo 2^64, or an error, and what is left |
| ProtobufStreams.InputStream.DecodeVarint32 | pb_decode.c:147-181 | the value modulo 2^32, or an error, and what is left |
| ProtobufStreams.InputStream.DecodeSvarint | pb_decode.c:742-754 | the zigzag-decoded number |
| ProtobufStreams.InputStream.DecodeTag | pb_decode.c:225-249 | tag and wire type, an error, or the end of the message |
| ProtobufStreams.SeenFields.AllPresent | pb_decode.c:706-716 | the bitmap check says whether all of fewer than 64 required fields were seen |
| ProtobufLaws.VarintTrip | pb_decode.c:147-203 | a printed varint is read back whatever follows it |
| ProtobufLaws.FindAt | pb_decode.c:364-378 | with distinct tags there is one field for a tag |
| ProtobufDecoder.FieldIterator.Next | pb_decode.c:330-362 | the field after this one, or the first again; the number of required fields before it is kept |
| ProtobufDecoder.FieldIterator.FindTag | pb_decode.c:364-378 | a search once round the table finds a field with the tag iff there is one, and otherwise ends where it began |
| ProtobufDecoder.FieldIterator.CountRequired | pb_decode.c:690-704 | the number of required fields, from wherever the iterator stands |
| ProtobufDecoder.MakeSubstream | pb_decode.c:296-309 | the window of a length-delimited field, and what follows it |
| ProtobufDecoder.CloseSubstream | pb_decode.c:311-318 | reading goes on where the substream ended, with as many bytes left as before |
| ProtobufDecoder.TagOfNothing | pb_decode.c:364-378 | a message without fields skips every field but one with number zero, which it refuses |
| ProtobufDecoder.FieldInNothing | pb_decode.c:364-378 | a four-byte field in a message without fields is accepted iff its number is not zero |
| ProtobufDecoder.SkipField | pb_decode.c:251-261 | a field of each wire type is passed over, or an error |
| ProtobufDecoder.SetToDefaults | pb_decode.c:573-619 | every member at its default, submessages included |
| ProtobufDecoder.DecodeScalar | pb_decode.c:798-874 | numbers, fixed, bytes and strings are read as the format says |
| ProtobufDecoder.DecodePacked | pb_decode.c:403-428 | items until the window is used up, or an error if the array is full |
| ProtobufDecoder.DecodeField | pb_decode.c:384-444 | the current member takes what the stream has for it; no other member changes on any outcome |
| ProtobufDecoder.DecodeMessage | pb_decode.c:625-719 | for any bytes and any members so far: outcome, members and what is left are those of the format, whatever the order and number of fields |
| ProtobufDecoder.Decode | pb_decode.c:721-725 | the same, from the defaults |
| ProtobufDecoder.MarksEnd | pb_decode.c:677-716 | marking required fields by their number among the required ones tells whether all were seen |
| ProtobufDecoder.EncodeThenDecode | pb_decode.c:625-725 | encoding into a buffer and decoding it restores the message, and fails iff the encoder does |
| ProtobufLaws.SlotTrip | pb_decode.c:384-444 | each printed member is read back into its place, packed or one by one |
| ProtobufStreams.ScanString | pb_encode.c:559-571 | a string is what comes before the first zero or the end of its member |
| ProtobufLaws.TextTrip | pb_decode.c:860-874 | whatever a member holds, its string comes back iff a terminator fits behind it, or counting it wraps around |
| ProtobufLaws.FullTextLost | pb_decode.c:868-869 | a string that fills its member is encoded and then refused |
| ProtobufLaws.TypedSlotsPrint | pb_encode.c:306-341 | the encoder accepts whatever the members of a structure can hold |
| ProtobufUnknown.MemberBegins | pb_encode.c:415-450 | a printed member begins with its number and its wire type, 0, 1, 2 or 5 |
| ProtobufUnknown.PrintedExample | pb_encode.c:351-368 | the bytes of a Failure packet's code |
| ProtobufUnknown.SkipValue | pb_decode.c:251-261 | a reader that goes by the wire type passes over exactly the value |
| ProtobufUnknown.UnknownFieldsPassedOver | pb_decode.c:625-725 | with a table that lacks some of the fields all the others are restored and every byte is read |
| ProtobufLaws.RoundTrip | pb_decode.c:625-725 | every accepted message comes back, nested and repeated members included, absent ones at their defaults, and all bytes are read |
| Usart.Ring.Put | avr/usart.c:116-123 | the queue grows by the byte at its end |
| Usart.Ring.Take | avr/usart.c:204-208 | the queue loses its first byte |
| Usart.Port.OnReceive | avr/usart.c:105-125 | the byte is queued, or dropped and the overrun recorded |
| Usart.Port.OnRegisterEmpty | avr/usart.c:132-147 | the next queued byte is transmitted, or the interrupt turned off |
| Usart.Port.ContinueSend | avr/usart.c:153-187 | each step of sending; a direct write finds an empty register and an empty queue |
| Usart.Port.ContinueReceive | avr/usart.c:193-210 | each step of receiving, every read of the spin test on its own; a byte is taken only from a queue that has one |
| Usart.Port.Run | avr/usart.c:105-210 | over every interleaving both directions stay queues, and every byte of the line has arrived |
| Usart.Port.InOrder | avr/usart.c:105-210 | what was transmitted is a prefix of what was submitted; without an overrun no received byte is lost or reordered |
| Packing.OtherFields | statistics.c:118-152 | replacing an 11-bit field leaves every other field alone |
| Packing.GetAcross | statistics.c:99-109 | a field across two words is read whole |
| Packing.PutAcross | statistics.c:138-151 | a field across two words is replaced and nothing else |
| Histogram.PutIsUpdate | statistics.c:118-152 | the words after a put stand for the bins with one entry replaced |
| Histogram.Statistics.GetHistogram | statistics.c:85-112 | the bin's count, or an error |
| Histogram.Statistics.PutHistogram | statistics.c:118-152 | the bins with one entry replaced, or the flag that says why not |
| Histogram.Statistics.IncrementHistogram | statistics.c:157-161 | while nothing overflowed the bins add up to the number of samples |
| Histogram.Statistics.GetTermFromIterator | statistics.c:202-230 | the next count of the next bin, or an error past the last |
| Histogram.Statistics.CalculateCentralMomentRecursive | statistics.c:243-259 | takes exactly as many terms as its level says and averages them pairwise; an error iff there are fewer |
| Histogram.Statistics.CalculateCentralMoment | statistics.c:269-273 | the average over the first 4096 counts, which are all of them if they add up to that; an error iff they add up to less |
| Histogram.VisitsCount | statistics.c:202-230 | a whole pass visits each bin exactly as often as it counts |

## Left out

- Ecdsa.Signer.BigInvert: uses exact field products, not the byte-level product, whose rare wrong results `Reduction` describes; the same holds of PointDouble, PointAdd, PointMultiply and EcdsaSign. Coordinates are numbers below the modulus instead of byte arrays there.
- Ecdsa.Signer.EcdsaSign: the nonces are given as the generator's outputs; how HMAC_DRBG derives them from key and hash is not part of this model. That p and n are prime is a hypothesis.
- BigField.Field.ReduceAll: needs a complement of fewer than 32 bytes; with 32 the loop of the code does not end.
- TransactionBinding.ReferencesMatch: SHA-256 is any function to 32 bytes; since none of these is injective, results name the two strings that would have to collide.
- TransactionParser.Parser.ParseTransactions: the lines shown are amounts with address version and hash; their texts are the subject of `TextEncoding`.
- Protocol.Wire.ProcessPacket: whether a payload decodes, and to what, is arbitrary for each packet; a packet without the leading marks stops the device and is not modelled; wallet results are arbitrary; transaction data under another wire type than that of strings is not modelled; that a reply is sent only after the packet has been read is not claimed for SignTransaction.
- Protocol.SignedAsShown: needs 32-byte digests.
- Protocol.Talk: operations other than signing are events without their parameters, such as the wallet number.
- Wallet.Wallets.Run: the store is fault-free; random number failures are modelled, storage faults are not. The global partition with the entropy pool is not modelled; its failures count as random number failures, and whether storing a new pool fails is given.
- Wallet.Wallets.GetPrivateKey: SHA-256, PBKDF2, HMAC-SHA512 and the elliptic curve steps of the key generator are uninterpreted functions.
- Storage.Store.EncryptedNonVolatileWrite: a faulty write of a block is taken to leave the block as it was; buffering and nonVolatileFlush() are not modelled. One partition is modelled.
- ProtobufLaws.RoundTrip: needs an encoding of fewer than 2^32 bytes and tags below 2^29; callback and extension fields are left out.
- ProtobufDecoder.DecodeMessage: members of a structure are values at a position in the table, not bytes at an offset; what a failed decoding leaves in the stream and in the member it failed in is not stated. Tables have distinct tags and fewer than 64 required fields.
- Usart.Port.Run: flow control by acknowledgements (streamGetOneByte, streamPutOneByte) is left out.
- Histogram.Statistics.CalculateCentralMoment: fixed-point operations are arbitrary functions; the number of samples is unbounded where the code has 32 bits.
- Backup, listing and querying of wallets, getMasterPublicKey, point serialisation and bip32.c: they would only add easy members.
- fft.c, fix16.c, estimateEntropy and the other statistics: rounded approximations.
- Hash compression functions, HMAC, PBKDF2, HMAC_DRBG and the entropy pool: uninterpreted.
- LCD, buttons, ADC, EEPROM driver, start-up code and everything under TEST: hardware and test plumbing.
- Timing independence, entropy quality and the clearing of RAM cannot be stated as functional contracts.
