# OSCORE and EDHOC, modelled and verified

This project models the two protocol modules of the uOSCORE-uEDHOC library and proves what they are for.

**OSCORE** (`modules/oscore`, RFC 8613) turns a CoAP packet into a protected one and back. The model follows the C code
step by step: the packet parser and writer, the split of the options into encrypted and outer ones, the plaintext with
its precomputed length, sequence number, nonce and AAD, the OSCORE option and its place among the outer options, and on
the receiving side the option parser, the context update, decryption, and the sort and merge that put the options
together again. On top of it stand the end-to-end round trip, agreement over whole runs, and what sequence numbers and
nonces do over whole runs.

**EDHOC** (`modules/edhoc`, draft-ietf-lake-edhoc-02) is a three-message key exchange. The model has the messages and
their parsers, the transcript hashes, the key schedule, the authenticators, and the two runs as functions of what is
received together with the imperative runs. On top of it stand agreement of two honest parties, transcript binding, and
authentication before success against any received messages.

Code that works in place is modelled in place: buffers are arrays, the security context is a class, encoders advance
over a buffer, parsers move a position over the items. Decoding a single CBOR item and shortening a key id are functions
on values, as the calls into the CBOR library are. Each method is proved equal to a function on values, and the theorems
are about these functions. What C leaves undefined (reading a byte never written, writing past a buffer) is the error
`Undefined`.

## Main results

- What the server hands on is the packet the client parsed (`RoundTrip.RequestRoundTrip`), also for responses, and over
  any run with losses both sides stay in step (`Runs.RunAgreement`, `Runs.RunFromInit`), also from different ID
  contexts, as long as the client's is no longer than the server's. The conditions for this are necessary as well: for
  every packet and every buffer size, recovery means that the predicted length is exact, the numbers are below 256 and
  none of 9, 35 and 39, at most ten options are encrypted, no marker lies inside the option bytes, outer options and
  OSCORE value have less than 13 bytes, and all of it fits, or else that the receiver's AEAD opened what the sender did
  not seal (`RoundTripExact.RequestRecoveredExactly`, `RoundTripExact.ResponseRecoveredExactly`). With a readable outer
  part there is no such exception (`RoundTripExact.RequestRecoveredReadable`,
  `RoundTripExact.ResponseRecoveredReadable`).
- Splitting the options, inserting OSCORE, sorting and merging is the identity exactly when the numbers are the exact
  running sums, all below 256, and none is 9, 35 or 39 (`SplitMerge.SplitMergeIdentity`).
- Four codec pairs are inverses under exact conditions (`Coap.ParseEncoded`, `Coap.ParseSerialized`,
  `OscoreValue.ParseValueWritten`, `EdhocPlaintext.PlaintextRoundTrip`).
- Whatever is sent, only options numbered 3, 7, 9, 35 and 39 stay outside, every other option is in the plaintext, and
  the payload is the ciphertext under the own sender key, nonce and Enc_structure (`Exposure.WhatIsSent`).
- At every moment keys and Common IV are one HMAC each, written out with the own id, the ID context then held and the
  type (`Runs.KeysFromInit`), over different inputs for the two directions (`Runs.KeysStayApart`).
- Every emitted request has a larger number than all before it (`Runs.NumbersIncrease`), and two of them share a nonce
  exactly when one number is the other times a power of 256 (`Runs.RunNonces`).
- Two honest EDHOC parties both succeed exactly when corr is 1 and C_R is below 48, and then agree on all three
  transcript hashes and all three keys (`EdhocAgreement.Agreement`).
- The keys of that session are written out with HMAC and DH for every method (`EdhocVerdict.AgreementKeys`), and equal
  keys mean equal shared secrets or an HMAC collision (`EdhocVerdict.KeyBinding`).
- An EDHOC party succeeds only after it has authenticated its peer on its own transcript hash
  (`EdhocAuthentication.InitiatorAuthenticates`, `EdhocAuthentication.ResponderAuthenticates`): against a static DH key
  it accepts one MAC, written out with HMAC and AEAD, and answers any other of full length with an error message
  (`EdhocVerdict.InitiatorSucceeds`, `EdhocVerdict.VerdictOnMac2`, `EdhocVerdict.ResponderSucceeds`,
  `EdhocVerdict.VerdictOnMac3`).
- A verified signature and an accepted MAC bind their maker to the transcript (`EdhocAuthentication.ResponderTookPart`,
  `EdhocAuthentication.InitiatorTookPart`, `EdhocAuthentication.StaticResponderTookPart`,
  `EdhocAuthentication.StaticInitiatorTookPart`).
- Every structure that enters a hash, HMAC, signature or AEAD, and every EDHOC message, is equated with its bytes,
  written with numerals (`OscoreWire`, `EdhocWire`); the request of appendix C.4 of RFC 8613 is an instance
  (`Vectors.RequestSent`).

## Where the code departs from its documents

The model follows the code. Each point below is part of a theorem.

- The option writer adds 13 or 269 where RFC 7252 subtracts, and the packet parser subtracts for deltas but adds for
  lengths. An option is written as in section 3.1 of RFC 7252 exactly when delta and length are below 13
  (`Coap.WrittenAsInRfc`), and a packet is read back only when all lengths are below 13 (`Coap.ParseSerialized`), that
  of the OSCORE option included. A reader that follows the RFC takes a larger delta or length for one larger by 26, or
  by 538 (`Coap.RfcPeerReads`).
- The payload is looked for behind the first 0xFF, also inside the options (`Coap.RestRead`, `Coap.MarkerSources`).
- The predicted length of the encrypted options takes 13 for a small value and looks at the original deltas; otherwise a
  copy fails and the packet cannot be sent (`RoundTrip.PlaintextSucceeds`).
- The merge never passes the OSCORE option, so outer options above it are lost (`SplitMerge.SplitMergeIdentity`).
- Option numbers are kept modulo 256 and re-based from there: an option numbered 258 comes back as the option 2
  (`SplitMerge.NumberAbove255`), and the option 259 is encrypted, but recorded as 3 (`Exposure.RecordedModulo256`).
- A server takes over a KID context that differs from its ID context only if it is no longer; a request with a longer
  one is refused (`Context.UpdateMakes`, `RoundTrip.LongerContextRefused`).
- A request changes the server's context before it is decrypted, also if it then does not decrypt
  (`RoundTripExact.NotOpened`).
- An OSCORE value of 13 bytes or more, as an ID context of 8 bytes and a sender id of 2 give, is read 26 bytes too long;
  the server takes these bytes for more of the KID and refuses every such request (`RoundTripExact.LongValueRefused`).
- The length of a ciphertext is stored in 16 bits: for payloads that bring it to 65536 bytes or more, at most 7 bytes of
  it are sent, and the call reports success (`Protect.PayloadOf`, `RoundTripExact.RequestRecoveredExactly`).
- All responses to one request are sealed under one key and nonce (`Runs.ResponsesShareNonce`).
- The Partial IV is the sequence number in little-endian order, padded on the left in the nonce, so different numbers
  can share a nonce (`Nonce.SharedNonce`, with 1 and 256 as an instance in `Nonce.SharedNonceExample`); in network order
  they could not (`Nonce.NetworkOrderNonces`).
- The expand loop counts in eight bits and does not end for 255 blocks, which the length check lets pass; its counter
  wraps and it writes in front of the output (`Hkdf.ExpandTerminates`, `Hkdf.HkdfExpand`).
- The EDHOC responder assigns 3 to corr unless it is 1 (`modules/edhoc/src/responder.c:313`), while the initiator always
  sends C_R in message 3; a C_R of 48 or more does not fit the single byte it is written to
  (`EdhocAgreement.Agreement`).
- A message 1 with several suites is refused by the responder's parser (`EdhocMessages.Msg1RoundTrip`).
- A key id of 48 or more is cut to its first byte in a plaintext (`EdhocPlaintext.PlaintextRoundTrip`), and one received
  as a byte string is taken by its first byte (`EdhocPlaintext.StringKid`).
- The error of a certificate that is too long to decode is not looked at: above 256 bytes its label alone is the
  identifier (`EdhocPlaintext.ChainCapacity`).
- Error messages are written with a byte string, but recognised by a text string, so an initiator reports an error of
  another kind for the error message of this responder (`EdhocMessages.ErrorUnseen`).
- Before message 2 the responder compares METHOD_CORR, not corr, with 0 and 2 to decide whether an error message carries
  C_I (`EdhocVerdict.UnsupportedSuite`).

## Files

| files | what they model |
|---|---|
| `Bytes`, `Cbor`, `Wire`, `Hkdf` | bytes and C widths, CBOR items (RFC 8949) and their bytes, HKDF (RFC 5869) |
| `OscoreErrors`, `Coap`, `Options`, `SplitMerge` | error codes, packets, options split, inserted, sorted and merged |
| `Nonce`, `OscoreValue`, `Aad`, `Context`, `OscoreWire` | nonce, OSCORE option value, AAD, security context, their bytes |
| `Protect`, `Unprotect`, `Exposure` | the two conversions, and what a protected packet shows |
| `RoundTrip`, `RoundTripExact`, `Runs`, `Vectors` | the round trip and its exact condition, whole runs, test vectors |
| `Edhoc`, `EdhocTh`, `EdhocMac`, `EdhocPlaintext`, `EdhocMessages` | shared parts, transcript hashes, keys and authenticators, plaintexts, messages |
| `EdhocInitiator`, `EdhocResponder`, `EdhocAgreement` | the two runs and agreement |
| `EdhocWire`, `EdhocVerdict`, `EdhocAuthentication` | structures by bytes, what a run computes and decides, what it says of the peer |

The cryptographic functions are parameters: an HMAC and a hash with 32-byte results, an AEAD, DH, signatures. The laws
asked of them are `Hkdf.AeadCorrect` and `Edhoc.Laws`; both can be met (`Hkdf.AeadCorrectPossible`,
`Edhoc.LawsPossible`). They take the place of the replaceable wrapper functions in `crypto_wrapper.c` for every cipher
suite.

## Model

| member | source | states |
|---|---|---|
| Bytes.CopyInto | modules/oscore/src/memcpy_s.c:16-25 | The copied bytes stand at their place and nothing else of the destination changes. |
| Bytes.XorBytesTwice | modules/edhoc/src/responder.c:401-403 | Xoring with the same keystream twice gives the data back, on every byte. |
| Bytes.XorInPlace | modules/oscore/src/nonce.c:50-53 | The loop leaves in the array the bytewise exclusive or of its old contents and the mask. |
| Bytes.XorBits | modules/oscore/src/nonce.c:50-53 | Each of the eight bits of an exclusive or is set exactly when it is set in one of the bytes and not in the other. |
| Cbor.ReadItemWritten | modules/edhoc/src/cbor_decoder.c:16-97 | Reading a written item gives that item and its length, whatever follows it. |
| Cbor.ItemsUnique | modules/edhoc/src/th.c:31-164 | An item sequence is determined by its bytes. |
| Wire.BstrWritten | modules/edhoc/src/signature_or_mac_msg.c:22-33 | A byte string of any length below 2^32 is written with the initial byte and length bytes of RFC 8949, numeral by numeral. |
| Cbor.Encoder.Put | modules/edhoc/src/th.c:39-69 | An item is appended behind the earlier ones; the call tells whether all of them still fit the buffer. |
| Hkdf.ExpandTerminates | modules/oscore/src/crypto_wrapper.c:109-117 | The 8-bit loop counter passes the block count, and the loop ends, exactly for at most 254 blocks. |
| Hkdf.ExpandLimits | modules/oscore/src/crypto_wrapper.c:109-117 | Up to 8128 bytes are produced, up to 8160 pass the check, more are refused. |
| Hkdf.ExpandShort | modules/oscore/src/crypto_wrapper.c:109-133 | Up to 32 bytes of output are the front of one HMAC over the info and the byte 1. |
| Hkdf.BlocksAt | modules/oscore/src/crypto_wrapper.c:117-131 | Bytes 32(i-1) to 32i of the output are T(i). |
| Hkdf.HkdfExpand | modules/oscore/src/crypto_wrapper.c:109-133 | Up to 254 blocks the output is the first L bytes of T(1), T(2), ... of section 2.3 of RFC 5869, all of it and nothing else; with 255 blocks the counter wraps and the write in front of the output is reported; above, an error and an untouched buffer. |
| Hkdf.HkdfSha256 | modules/oscore/src/crypto_wrapper.c:78-138 | The same with the PRK extracted under the salt, or under zeros if there is none, for every output length. |
| Coap.OptionsIntoByteString | modules/oscore/src/coap.c:22-111 | The buffer holds the serialised options exactly when they fit; otherwise the error of the failing copy. |
| Coap.EncodeOptionsAppend | modules/oscore/src/coap.c:34-109 | Serialised option lists concatenate. |
| Coap.Buf2Options | modules/oscore/src/coap.c:121-209 | Reading with a moving position and a running 8-bit sum gives the options, their numbers, or the error of the recursive reader; with the other length rule the same holds for the plaintext parser. |
| Coap.ParseOneEncoded | modules/oscore/src/oscore2coap.c:297-361 | One written option is read back exactly when its length is readable under the parser's rule, over all three size classes and the wrap at 2^16; otherwise its length comes out different. |
| Coap.ParseEncoded | modules/oscore/src/oscore2coap.c:281-369 | The option codec inverse: a written list is read back exactly when its numbers are the running sums modulo 256, it fits, and every length is readable; the loop stops by bytes left. |
| Coap.FirstMisread | modules/oscore/src/coap.c:166-201 | The first option too long for the packet parser keeps its number and gets another length, what precedes it is read as written; the last one, of up to 242 bytes, is read 26 bytes too long. |
| Coap.MarkerIndexUnique | modules/oscore/src/coap.c:253-257 | The scan finds the only position with a marker there and none before it. |
| Coap.Buf2Coap | modules/oscore/src/coap.c:211-281 | The imperative parser gives exactly what the value-level parser gives, errors included. |
| Coap.Coap2Buf | modules/oscore/src/coap.c:283-359 | If the packet fits the buffer, whose size is 16-bit, its front is the serialisation and the returned length is its length; otherwise the error. |
| Coap.RestRead | modules/oscore/src/coap.c:242-278 | Options and payload are both recovered exactly when the numbers are running sums, there is room, the lengths are readable, and no marker lies inside the option bytes. |
| Coap.ParseSerialized | modules/oscore/src/coap.c:121-359 | The packet codec inverse: a written packet is read back exactly when it is readable in that sense. |
| Coap.MarkerSources | modules/oscore/src/coap.c:57-68 | With deltas below 256 and lengths below 13, option bytes contain 0xFF exactly when a delta is 242 or a value contains it. |
| Coap.WrittenAsInRfc | modules/oscore/src/coap.c:39-92 | An option is written as in section 3.1 of RFC 7252 exactly when delta and length are below 13. |
| Coap.RfcPeerReads | modules/oscore/src/coap.c:39-92 | A reader that follows section 3.1 of RFC 7252 takes a delta or length from 13 to 242 for one larger by 26, and from 243 on for one larger by 538, modulo the wrap at 2^16. |
| Options.ExtractEU | modules/oscore/src/coap2oscore.c:37-114 | The loop gives the two lists and the predicted length of the recursive split, whose contents Exposure.SplitHolds states. |
| Options.SplitIsRebase | modules/oscore/src/coap2oscore.c:75-111 | For running numbers, the two lists are the options of each class in order, with deltas re-based to differences of numbers. |
| Options.SplitLength | modules/oscore/src/coap2oscore.c:63-94 | The predicted length is the sum of the predicted sizes of the encrypted options, modulo 2^16. |
| Options.PlaintextAccounting | modules/oscore/src/coap2oscore.c:63-94 | The prediction never exceeds the bytes written, and equals them exactly when no encrypted length is 13 and each original delta has the extra bytes of the re-based one. |
| Options.InsertOscore | modules/oscore/src/coap2oscore.c:339-380 | The loop with its 8-bit sum inserts OSCORE in order and re-bases all deltas. |
| Options.SortCorrect | modules/oscore/src/oscore2coap.c:188-199 | Sorting gives a sorted permutation. |
| Options.SortedUnique | modules/oscore/src/oscore2coap.c:188-199 | A sorted permutation is unique. |
| Options.ExchangeSort | modules/oscore/src/oscore2coap.c:188-199 | The nested exchange loops leave the sorted permutation in the array. |
| Options.CollectNumbers | modules/oscore/src/oscore2coap.c:171-186 | The array holds the numbers of both lists without OSCORE, in order, and zeros behind them. |
| Options.WalkSorted | modules/oscore/src/oscore2coap.c:204-266 | The two-index walk over the sorted numbers gives what the recursive merge gives. |
| Options.ReorderOptions | modules/oscore/src/oscore2coap.c:157-271 | Collecting, sorting and walking together are the merge. |
| SplitMerge.WalkRestores | modules/oscore/src/oscore2coap.c:204-266 | Over the sorted numbers of an ordered list the walk takes each option of both lists once, in order, with deltas whose sums are the numbers. |
| SplitMerge.SplitMergeIdentity | modules/oscore/src/oscore2coap.c:157-271 | For every list the packet struct can hold: split, insert OSCORE, sort and merge give it back, repeated options in order, exactly when the numbers are the exact running sums, all below 256, and none is 9, 35 or 39. |
| SplitMerge.MergeIsNumbered | modules/oscore/src/oscore2coap.c:204-266 | Whatever lists are merged, the numbers of the result are the exact running sums of its deltas. |
| SplitMerge.NumberAbove255 | modules/oscore/src/coap2oscore.c:60-104 | An option numbered 258 is split as it is and merged to the option 2. |
| SplitMerge.WalkStops | modules/oscore/src/oscore2coap.c:208-237 | Over numbers without 9 the walk never passes an OSCORE option: it yields at most the outer options before it and the encrypted ones. |
| SplitMerge.WalkTakesFront | modules/oscore/src/oscore2coap.c:208-237 | The outer options of a merge result are, in order, those at the front of the received outer list. |
| SplitMerge.OscoreComesLast | modules/oscore/src/coap2oscore.c:339-380 | If all outer options are below 9, OSCORE is inserted behind them with its value, and is the only one of its number. |
| Nonce.CreateNonce | modules/oscore/src/nonce.c:20-57 | The array holds length, padded id and padded Partial IV mixed with the Common IV. |
| Nonce.NonceBytes | modules/oscore/src/nonce.c:20-57 | Byte 0 is the size of the id, bytes 1 to 7 end with the id, bytes 8 to 12 end with the Partial IV, each mixed with the byte of the Common IV at its place. |
| Nonce.NonceCharacterised | modules/oscore/src/nonce.c:20-57 | For one Common IV two nonces are equal exactly when the ids are equal and the Partial IVs are equal after padding. |
| Nonce.SenderSeqNum2Piv | modules/oscore/src/security_context.c:283-302 | The scan from the top byte finds the shortest form; numbers from 2^40 on are refused. |
| Nonce.SeqNum2PivCorrect | modules/oscore/src/security_context.c:283-302 | It succeeds exactly below 2^40, with 1 to 5 bytes that spell the number and no zero on top except for 0. |
| Nonce.SharedNonce | modules/oscore/src/security_context.c:285-293 | Two positive numbers below 2^40 share a nonce exactly when one is the other times a power of 256. |
| Nonce.SharedNonceExample | modules/oscore/src/security_context.c:285-293 | 1 and 256 share a nonce. |
| Nonce.ZeroNonce | modules/oscore/src/security_context.c:298-301 | The number 0 shares its nonce with no other number. |
| Nonce.NetworkOrderNonces | modules/oscore/src/nonce.c:23-29 | With Partial IVs in network order different numbers below 2^40 have different nonces. |
| OscoreValue.ValueFits | modules/oscore/src/coap2oscore.c:206-221 | The precomputed length is the length of the value and at most 22, so the length error cannot occur. |
| OscoreValue.GenerateValue | modules/oscore/src/coap2oscore.c:236-300 | The buffer of the precomputed length is filled exactly with flags, Partial IV, KID context and KID. |
| OscoreValue.ParseValueWritten | modules/oscore/src/oscore2coap.c:62-121 | The receiver reads from the value the same Partial IV, KID context and KID. |
| OscoreValue.ParseValueLonger | modules/oscore/src/oscore2coap.c:112-120 | Bytes read behind a value are taken for more of its KID. |
| OscoreValue.ParseAnyValue | modules/oscore/src/oscore2coap.c:62-121 | Every value of section 6.1 of RFC 8613, with or without Partial IV, KID context and KID and whatever its high flag bits, is read as it is meant. |
| OscoreValue.ParseOscoreOption | modules/oscore/src/oscore2coap.c:32-128 | The loop over the options gives the last OSCORE option's fields, or that there is none, or the error; see the note below on values shorter than their flags promise. |
| OscoreValue.FindOscoreLast | modules/oscore/src/oscore2coap.c:44-125 | With OSCORE last and nowhere else, its value is the one parsed. |
| Aad.NoClassI | modules/oscore/src/option.c:25-29 | No option is of class I, so every option list contributes nothing to the AAD. |
| Aad.EncodedOptionLen | modules/oscore/src/option.c:60-77 | The loop computes the length of the options of a class. |
| Aad.AadLen | modules/oscore/src/aad.c:19-59 | The AAD is always seven bytes longer than KID and Partial IV together. |
| Aad.CreateAad | modules/oscore/src/aad.c:61-103 | Whatever options are passed, the bytes are those of KID and Partial IV alone. |
| Aad.AadUnique | modules/oscore/src/aad.c:61-103 | The AAD determines KID and Partial IV. |
| Aad.EncStructureUnique | modules/oscore/src/oscore_cose.c:20-37 | The structure authenticated by the AEAD determines the AAD. |
| Aad.InfoUnique | modules/oscore/src/hkdf_info.c:81-121 | The info structure determines id, ID context and whether a key or an IV is derived. |
| OscoreWire.InfoWritten | modules/oscore/src/hkdf_info.c:81-121 | The info structure byte by byte, with null for an empty ID context. |
| OscoreWire.AadWritten | modules/oscore/src/aad.c:19-59 | The external_aad byte by byte. |
| OscoreWire.EncWritten | modules/oscore/src/oscore_cose.c:20-37 | The Enc_structure byte by byte. |
| OscoreWire.ValueWritten | modules/oscore/src/coap2oscore.c:236-300 | The option value byte by byte. |
| OscoreWire.KeyWritten | modules/oscore/src/security_context.c:36-65 | The key of an id is the front of one HMAC, under the PRK extracted from secret and salt, over the written-out info structure of that id. |
| OscoreWire.IvWritten | modules/oscore/src/security_context.c:72-78 | The Common IV likewise, with an empty id. |
| OscoreWire.InitWritten | modules/oscore/src/security_context.c:186-281 | After initialisation Common IV, sender key and recipient key are these, each with its own id of the parameters; counter, KID and KID context are set, nonce, AAD and Partial IV are not. |
| OscoreWire.InitFails | modules/oscore/src/security_context.c:186-281 | Initialisation fails exactly for another AEAD, another KDF, a KID above 7 bytes or a client's ID context above 8, with these errors. |
| OscoreWire.KeysApart | modules/oscore/src/security_context.c:86-110 | With different ids the two keys come from different HMAC inputs. |
| Context.InitConsistent | modules/oscore/src/security_context.c:186-281 | After initialisation Common IV and keys are those that the derivation gives for the ids in the context, and the counter is 0. |
| Context.UpdateKeeps | modules/oscore/src/security_context.c:112-184 | Any update, also one that fails on the way, keeps the keys consistent, the ids, secret, salt, KID and counter, and never lengthens the ID context; a successful one installs the received ID context. |
| Context.UpdateMakes | modules/oscore/src/security_context.c:112-184 | A server's update succeeds exactly with a Partial IV and a KID context that is the ID context, or at most as long and at most 8 bytes; it then holds that Partial IV, the nonce made with the Common IV that holds afterwards, the AAD, and the new KID context with keys derived anew; a failed one leaves ids, keys, nonce and AAD alone. |
| Context.SecurityContext.Init | modules/oscore/src/security_context.c:186-281 | The object ends in exactly the initial state, or with the same error. |
| Context.SecurityContext.Update | modules/oscore/src/security_context.c:112-184 | The object ends in exactly the updated state, also when the update fails; a client renews only nonce and AAD. |
| Protect.SetupPlaintext | modules/oscore/src/coap2oscore.c:125-176 | The buffer holds code, options, marker and payload, if each copy fits; otherwise the error. |
| Protect.DrawRequest | modules/oscore/src/coap2oscore.c:460-482 | The counter is used up whatever follows; the context and the option value are those of the next request. |
| Protect.Coap2Oscore | modules/oscore/src/coap2oscore.c:399-507 | The buffer holds the serialised OSCORE packet, its ciphertext cut to a 16-bit length, and the context is the one after the call, on every error path too. |
| Exposure.SplitHolds | modules/oscore/src/coap2oscore.c:75-111 | For every option list: the outer list holds, in order and with their values, the options whose 16-bit running number is 3, 7, 9, 35 or 39, the encrypted list all others. |
| Exposure.InsideAreNotShown | modules/oscore/src/coap2oscore.c:76-86 | The plaintext records none of these five numbers exactly when no encrypted option has one of them as the low byte of its number. |
| Exposure.NumberedAreHidden | modules/oscore/src/option.c:17-23 | For numbers below 256 it never does. |
| Exposure.RecordedModulo256 | modules/oscore/src/coap2oscore.c:76-86 | The option 259 is encrypted and recorded as 3. |
| Exposure.WhatIsSent | modules/oscore/src/coap2oscore.c:399-507 | Every emitted packet has header and token of the CoAP packet, code POST or Changed, only options numbered 3, 7, 9, 35 and 39, and as payload the ciphertext, cut to 16 bits of length, of code, encrypted options, marker and payload under sender key, nonce and Enc_structure. |
| Unprotect.SplitPlaintext | modules/oscore/src/oscore2coap.c:380-432 | Code, options and payload of a decrypted plaintext, or the parser's error. |
| Unprotect.OpenPacket | modules/oscore/src/oscore2coap.c:543-561 | Decrypting, splitting and merging in the object's context give the value-level result. |
| Unprotect.ArrayEquals | modules/oscore/src/byte_array.c:24-35 | True exactly for equal byte arrays. |
| Unprotect.Oscore2Coap | modules/oscore/src/oscore2coap.c:488-567 | Result, context afterwards and flag are those of the value-level conversion; a packet without OSCORE leaves all as it was. |
| RoundTrip.PlaintextSucceeds | modules/oscore/src/coap2oscore.c:427-451 | For every packet with numbers below 256, filling the plaintext buffer succeeds exactly when the predicted lengths are exact and scratch buffer and plaintext fit their 16-bit lengths; code, options, marker and payload then fill it. |
| RoundTrip.PlaintextRead | modules/oscore/src/oscore2coap.c:380-432 | The receiver recovers code, encrypted options and payload exactly when there are at most 10 options, their numbers are running sums, and no marker lies inside. |
| RoundTrip.OpenSealed | modules/oscore/src/oscore2coap.c:543-561 | A packet sealed by one endpoint, its ciphertext below 65536 bytes, is opened by the other, holding the same key, nonce and AAD, to the packet that was parsed. |
| RoundTrip.MirroredKeys | modules/oscore/src/security_context.c:36-110 | With swapped ids each one's sender key is the other's recipient key, and the Common IVs agree. |
| RoundTrip.InitMirrored | modules/oscore/src/security_context.c:186-281 | Initialised with swapped ids and all else equal, both initialisations succeed and the contexts are mirrored. |
| RoundTrip.InitAdopts | modules/oscore/src/security_context.c:186-281 | The server may have any ID context that is no shorter than the client's. |
| RoundTrip.ServerFollows | modules/oscore/src/oscore2coap.c:517-541 | The server accepts the option of a request exactly when the client's ID context is its own or no longer than its own; it then has the same ID context, keys crosswise, Partial IV, nonce and AAD. |
| RoundTrip.RequestRoundTrip | modules/oscore/src/oscore2coap.c:488-567 | End to end, in any buffer that is large enough: header, token, code, every option and payload that the server hands on equal those the client parsed; both then hold the same ID context, Partial IV, nonce and AAD, whichever ID context of no smaller length the server had. |
| RoundTrip.LongerContextRefused | modules/oscore/src/security_context.c:145-150 | The same request with an ID context longer than the server's is refused. |
| RoundTrip.ResponseRoundTrip | modules/oscore/src/coap2oscore.c:483-487 | A response that fits its buffer is recovered under the nonce and AAD stored with the request, and changes no context. |
| RoundTripExact.PayloadRight | modules/oscore/src/oscore2coap.c:380-432 | If the payload comes out of a plaintext right, then code and options do. |
| RoundTripExact.FoundOrFails | modules/oscore/src/oscore2coap.c:44-125 | Also among other options numbered 9 the scan fails or ends with the value the sender put in, which is the last. |
| RoundTripExact.RecoveredIsNumbered | modules/oscore/src/oscore2coap.c:157-271 | Whatever bytes arrive, a recovered packet has numbers below 256 that are the exact sums of its deltas. |
| RoundTripExact.InnerRecovered | modules/oscore/src/oscore2coap.c:441-486 | If a packet is recovered from what was sealed for it, its plaintext fitted, at most ten options were encrypted, no marker lay inside, its ciphertext was not cut, and the bytes fitted the buffer. |
| RoundTripExact.OuterRecovered | modules/oscore/src/coap.c:121-209 | Its outer part was then readable and nothing was lost by the merge, but for an OSCORE value of 13 bytes or more at the end. |
| RoundTripExact.MisreadIsOscore | modules/oscore/src/oscore2coap.c:208-237 | No recovered packet had another outer option misread. |
| RoundTripExact.LongValueRefused | modules/oscore/src/oscore2coap.c:517-530 | With an OSCORE value of 13 bytes or more and a readable outer part otherwise, the server refuses every request before decrypting, whatever the AEAD. |
| RoundTripExact.NotOpened | modules/oscore/src/oscore2coap.c:534-554 | What the AEAD does not open gives the authentication error; the context stays as the request has updated it. |
| RoundTripExact.PlainPacketPasses | modules/oscore/src/oscore2coap.c:504-516 | A packet without OSCORE option gives nothing and changes nothing. |
| RoundTripExact.RequestRecoveredExactly | modules/oscore/src/oscore2coap.c:488-567 | For every request, buffer size and pair of ID contexts: a deliverable request is recovered if the client's ID context is the server's or no longer, and only then, unless the server's AEAD opened what the client did not seal. |
| RoundTripExact.RequestRecoveredReadable | modules/oscore/src/oscore2coap.c:488-567 | With a readable outer part, a request is recovered exactly when it is deliverable and the ID context can be adopted, without exception. |
| RoundTripExact.ResponseRecoveredExactly | modules/oscore/src/oscore2coap.c:488-567 | The same for a response under the nonce and AAD both hold. |
| RoundTripExact.ResponseRecoveredReadable | modules/oscore/src/oscore2coap.c:488-567 | The same for a response. |
| Runs.RunAgreement | modules/oscore/src/security_context.c:112-184 | Over any run of requests and responses with losses the server can go on adopting the client's ID context, both agree on ID context, keys, Partial IV, nonce and AAD whenever the last request arrived, and every packet that was to arrive is recovered. |
| Runs.RunFromInit | modules/oscore/src/security_context.c:186-281 | The same from two initialisations with swapped ids, the server's ID context being any that is no shorter. |
| Runs.KeysOverRun | modules/oscore/src/security_context.c:36-184 | Whatever an endpoint sends or receives, in any order, keys stay consistent and the ID context never grows. |
| Runs.KeysFromInit | modules/oscore/src/security_context.c:186-281 | From initialisation on, at every moment, Common IV and keys are HMACs of the initial secret and salt over the written-out info structures of the own ids and the current ID context. |
| Runs.KeysStayApart | modules/oscore/src/security_context.c:86-110 | With different ids, sender key and recipient key come from different HMAC inputs at every moment. |
| Runs.OneCall | modules/oscore/src/coap2oscore.c:453-487 | The counter advances exactly when a request reaches the increment, also if it then fails; an emitted request carries the shortest form of the counter and the nonce made of it; a response changes nothing. |
| Runs.NumbersInRange | modules/oscore/src/security_context.c:283-302 | Every number emitted in a run is at least the counter at its start and below 2^40. |
| Runs.NumbersIncrease | modules/oscore/src/coap2oscore.c:460-464 | Over any run of fewer than 2^64 calls each emitted request has a larger number than all before it. |
| Runs.Exhausted | modules/oscore/src/security_context.c:285-293 | Once the counter has reached 2^40 no request is emitted again. |
| Runs.RunNonces | modules/oscore/src/security_context.c:285-293 | Of two requests of a run the later one reuses the nonce of the earlier exactly when its number is the earlier one times a power of 256. |
| Runs.ResponsesShareNonce | modules/oscore/src/coap2oscore.c:483-495 | Two responses in one pairing are sealed under the same key, nonce and AAD. |
| Vectors.InfoVectors | test/src/test_vectors_oscore.c:19-35 | The info structures of the client of appendix C.1.1 of RFC 8613, byte by byte. |
| Vectors.NonceVectors | test/src/test_vectors_oscore.c:52-54 | With its Common IV, the nonces of the Partial IV 14 without id and of the Partial IV 0 with the id 01, byte by byte. |
| Vectors.RequestSent | test/src/test_vectors_oscore.c:37-61 | Protecting the request of appendix C.4 gives the expected bytes up to the ciphertext, which is the seal of the expected plaintext under the expected nonce and Enc_structure. |
| Edhoc.EncodeItems | modules/edhoc/src/th.c:39-69 | Items written one after the other give their encoding if it fits the buffer, and otherwise the error. |
| Edhoc.IdentifierRead | modules/edhoc/src/responder.c:90-106 | A connection identifier is read back from its integer or byte string form. |
| EdhocTh.Th2Calculate | modules/edhoc/src/th.c:166-190 | Message 1 copied and the items encoded behind it are the hashed input, within the buffer. |
| EdhocTh.Th3Calculate | modules/edhoc/src/th.c:192-208 | The hash of TH_2, ciphertext_2 and C_R in its buffer, or the error. |
| EdhocTh.Th4Calculate | modules/edhoc/src/th.c:210-228 | The hash of TH_3 and ciphertext_3 in its buffer, or the error. |
| EdhocTh.PrefixUnique | modules/edhoc/src/th.c:31-76 | A raw prefix of any number of items, in any encoding, can be told from a known number of items behind it. |
| EdhocTh.Th2InputUnique | modules/edhoc/src/th.c:31-76 | The input of TH_2 determines message 1, with AD_1 or without, G_Y and C_R. |
| EdhocTh.Th3InputUnique | modules/edhoc/src/th.c:89-126 | The input of TH_3 determines TH_2, ciphertext_2 and C_R. |
| EdhocTh.Th4InputUnique | modules/edhoc/src/th.c:137-164 | The input of TH_4 determines TH_3 and ciphertext_3. |
| EdhocTh.TranscriptBinding | modules/edhoc/src/th.c:31-228 | For any sequences of items as message 1, equal TH_4 means equal message 1, G_Y, C_R, ciphertext_2 and ciphertext_3, or two named inputs collide. |
| EdhocWire.Th2Written | modules/edhoc/src/th.c:31-190 | The input of TH_2 byte by byte, its size limit, and both errors. |
| EdhocWire.Th3Written | modules/edhoc/src/th.c:89-208 | The input of TH_3 byte by byte. |
| EdhocWire.Th4Written | modules/edhoc/src/th.c:137-228 | The input of TH_4 byte by byte. |
| EdhocMac.InfoFits | modules/edhoc/src/hkdf_info.c:20-53 | The info structure always fits its 64 bytes. |
| EdhocMac.OkmCalc | modules/edhoc/src/okm.c:17-37 | Info structure and expand loop give HKDF-Expand of label, transcript hash and length. |
| EdhocWire.InfoWritten | modules/edhoc/src/hkdf_info.c:20-53 | The info structure byte by byte. |
| EdhocWire.OkmWritten | modules/edhoc/src/okm.c:17-37 | A key or IV is the front of one HMAC over the written-out info structure and the byte 1. |
| EdhocWire.PrkWritten | modules/edhoc/src/prk.c:19-44 | With a static DH key the next PRK is the HMAC of the shared secret under the old PRK, otherwise it is the old PRK. |
| EdhocVerdict.PrkBinding | modules/edhoc/src/prk.c:27-38 | With a static DH key, equal PRKs mean equal old PRKs and shared secrets, or an HMAC collision. |
| EdhocMac.PrkAgreement | modules/edhoc/src/prk.c:19-44 | From one old PRK both ends of a DH exchange derive the same next PRK; what it is states EdhocWire.PrkWritten. |
| EdhocMac.MUnique | modules/edhoc/src/signature_or_mac_msg.c:38-96 | What is authenticated determines the transcript hash, the credential identifier, the MAC, and credential and data together. |
| EdhocWire.MacInputWritten | modules/edhoc/src/signature_or_mac_msg.c:38-96 | The Enc_structure under a MAC byte by byte. |
| EdhocWire.SignatureInputWritten | modules/edhoc/src/signature_or_mac_msg.c:38-96 | The Sig_structure byte by byte. |
| EdhocMac.SignatureOrMacMsgCreate | modules/edhoc/src/signature_or_mac_msg.c:98-159 | Inner MAC and data to be signed, or the encoder's error. |
| EdhocWire.SignOrMacWritten | modules/edhoc/src/signature_or_mac_msg.c:98-159 | The authenticator that is sent: the MAC under the written-out key and IV of its step, or the signature over the Sig_structure with that MAC, within 512 bytes. |
| EdhocMac.CheckAccepts | modules/edhoc/src/initiator.c:373-398 | The authenticator made by the holder of the key passes the check; what else passes states EdhocWire.CheckWritten. |
| EdhocWire.CheckWritten | modules/edhoc/src/initiator.c:373-398 | The check written out on every path: comparison of the MAC in front, verification of the signature, and the errors. |
| EdhocWire.CheckStatic | modules/edhoc/src/initiator.c:373-383 | Against a static DH key, with enough bytes received, the check passes exactly for the seal of the empty plaintext under the HMAC-derived key and IV and the Enc_structure. |
| EdhocMac.SignOrMacExists | modules/edhoc/src/signature_or_mac_msg.c:98-159 | It can be made for identifiers of up to 180 and credentials of up to 255 bytes. |
| EdhocMac.Aead3Calc | modules/edhoc/src/initiator.c:490-514 | Key, IV and associated data of message 3; the associated data always fits. |
| EdhocWire.Aead3Written | modules/edhoc/src/initiator.c:490-514 | Key, IV and associated data of message 3, written out. |
| EdhocWire.A3aeWritten | modules/edhoc/src/a_Xae_encode.c:17-41 | The associated data byte by byte. |
| EdhocMac.KeystreamTwice | modules/edhoc/src/initiator.c:303-316 | Decrypting message 2 undoes encrypting it. |
| EdhocMac.ApplyKeystream | modules/edhoc/src/responder.c:390-404 | The loop mixes the derived keystream into the data. |
| EdhocWire.KeystreamWritten | modules/edhoc/src/responder.c:390-404 | The keystream is expanded from PRK_2e over the written-out info structure of its label, TH_2 and length. |
| EdhocPlaintext.PlaintextEncodeInto | modules/edhoc/src/plaintext.c:256-294 | Identifier part and encoded signature or MAC stand one after the other. |
| EdhocPlaintext.SplitIdAt | modules/edhoc/src/plaintext.c:62-177 | Moving over the identifier gives its ID_CRED and length, or the error. |
| EdhocPlaintext.SplitMapAt | modules/edhoc/src/plaintext.c:70-140 | The same for an identifier carried whole, label by label. |
| EdhocPlaintext.PlaintextSplitAt | modules/edhoc/src/plaintext.c:47-197 | Splitting with a moving position gives identifier, signature or MAC and data of the value-level split, or its error. |
| EdhocPlaintext.KidSent | modules/edhoc/src/plaintext.c:199-254 | A one-byte key id is sent as the first byte of the integer 24 below it. |
| EdhocWire.IdCredWritten | modules/edhoc/src/plaintext.c:23-140 | The credential identifiers byte by byte. |
| EdhocWire.PlaintextWritten | modules/edhoc/src/plaintext.c:256-294 | The plaintext of a party byte by byte. |
| EdhocPlaintext.StringKid | modules/edhoc/src/plaintext.c:166-176 | A key id received as a byte string of up to 256 bytes is taken by its first byte. |
| EdhocPlaintext.ChainCapacity | modules/edhoc/src/plaintext.c:92-107 | Behind its label a certificate of up to 251 bytes is found whole, one of up to 256 is refused, and of a longer one only the label is taken. |
| EdhocPlaintext.OtherLabels | modules/edhoc/src/plaintext.c:85-145 | Of all labels only 33 and 34 are read; 4, 32 and 35 leave the identifier unset, and any other is an error. |
| EdhocPlaintext.AdRead | modules/edhoc/src/plaintext.c:188-196 | Auxiliary data behind the authenticator is read exactly when it fits its buffer. |
| EdhocPlaintext.CertificateRoundTrip | modules/edhoc/src/plaintext.c:86-140 | An x5t or x5chain identifier is sent and read back whole. |
| EdhocPlaintext.PlaintextRoundTrip | modules/edhoc/src/plaintext.c:47-294 | Splitting an encoded plaintext gives identifier and signature or MAC back exactly when the identifier is a certificate's or a key id below 48 and the latter has at most 128 bytes. |
| EdhocMessages.Msg1Encode | modules/edhoc/src/initiator.c:139-209 | Putting item after item, suites in a loop, gives message 1 or the error at the first that does not fit. |
| EdhocWire.Msg1Written | modules/edhoc/src/initiator.c:139-209 | Message 1 byte by byte, with one suite or any number of them. |
| EdhocMessages.Msg2Encode | modules/edhoc/src/responder.c:207-252 | Message 2 in its buffer, a C_R of another length than one byte with the length of C_I, or the error. |
| EdhocWire.Msg2Written | modules/edhoc/src/responder.c:207-252 | Message 2 with a one-byte C_R byte by byte, with C_I and without. |
| EdhocWire.Msg2OtherWritten | modules/edhoc/src/responder.c:233-241 | With a C_R of another length as many of its bytes are written as C_I has. |
| EdhocMessages.Msg3Create | modules/edhoc/src/initiator.c:530-552 | C_R in its single byte and the encoded ciphertext one behind the other, or the error. |
| EdhocWire.Msg3Bytes | modules/edhoc/src/initiator.c:530-552 | Message 3 byte by byte; a one-byte C_R of 48 or more is refused. |
| EdhocWire.ErrorWritten | modules/edhoc/src/err_msg.c:27-96 | An error message byte by byte, for both roles and every corr. |
| EdhocMessages.ParseMsg1 | modules/edhoc/src/responder.c:48-118 | Parsing with a moving position gives the parts of the value-level parser, or its error. |
| EdhocMessages.ParseMsg2 | modules/edhoc/src/initiator.c:58-132 | The same for message 2, with an error message told from it by its text string. |
| EdhocMessages.ParseMsg3 | modules/edhoc/src/responder.c:147-189 | The same for message 3. |
| EdhocMessages.Msg1RoundTrip | modules/edhoc/src/responder.c:48-118 | The responder reads message 1 as it was written exactly when there is one suite, G_X has at most 32 and C_I at most 8 bytes. |
| EdhocMessages.SuitesAsString | modules/edhoc/src/responder.c:62-78 | Suites sent as a byte string are read up to five of them. |
| EdhocMessages.Msg1AdRead | modules/edhoc/src/responder.c:108-118 | AD_1 behind message 1 is read exactly when it fits its buffer. |
| EdhocMessages.Msg2RoundTrip | modules/edhoc/src/initiator.c:58-132 | The initiator reads G_Y, C_R and ciphertext_2 as they were written when C_I is not expected. |
| EdhocMessages.Msg2WithIdentifier | modules/edhoc/src/initiator.c:71-81 | With corr 0 or 2 on both sides a C_I of two bytes or more is read back with the rest. |
| EdhocMessages.ErrorUnseen | modules/edhoc/src/err_msg.c:46-50 | An error message as it is written is not recognised as one by an initiator that does not expect C_I. |
| EdhocMessages.Msg2Unexpected | modules/edhoc/src/initiator.c:71-81 | An initiator that expects C_I takes G_Y for it and fails. |
| EdhocMessages.Msg3Written | modules/edhoc/src/initiator.c:539-552 | C_R and ciphertext_3 are written exactly when C_R is below 48; otherwise an error. |
| EdhocMessages.Msg3RoundTrip | modules/edhoc/src/responder.c:147-189 | A responder that expects C_R reads the ciphertext back exactly up to 256 bytes. |
| EdhocMessages.Msg3Unexpected | modules/edhoc/src/responder.c:158-183 | A responder that does not expect C_R takes it for a ciphertext of one byte. |
| EdhocInitiator.ReceiveMessage2 | modules/edhoc/src/initiator.c:257-331 | Parsed, hashed, decrypted and split message 2, or the error, a received error message being reported. |
| EdhocInitiator.CreateMessage3 | modules/edhoc/src/initiator.c:400-552 | TH_3, PRK_4x3m, ciphertext_3 and message 3, or the error of the step that fails. |
| EdhocInitiator.EdhocInitiatorRun | modules/edhoc/src/initiator.c:211-567 | Messages sent and outcome are those of the run as a function of message 2, on every path; a message longer than its 256-byte buffer is not received. |
| EdhocVerdict.StartWritten | modules/edhoc/src/initiator.c:223-252 | The initiator's suite is the first of its list, 0 to 3, with its AEAD number and tag length, and its message 1 is written out. |
| EdhocVerdict.Open2Written | modules/edhoc/src/initiator.c:267-331 | TH_2 and PRK_2e of an opened message 2 written out with hash, HMAC and DH, and its plaintext behind the keystream. |
| EdhocVerdict.VerdictOnMac2 | modules/edhoc/src/initiator.c:373-383 | With methods 1 and 3 the run goes on exactly for the one MAC_2 of its own TH_2 and PRK_3e2m, written out; any other of full length brings the error message and failure. |
| EdhocVerdict.VerdictOnSignature2 | modules/edhoc/src/initiator.c:384-398 | Otherwise it goes on exactly when the signature verifies over the written-out Sig_structure. |
| EdhocVerdict.Seal3Written | modules/edhoc/src/initiator.c:400-552 | TH_3, PRK_4x3m, authenticator, ciphertext_3 and message 3 written out with hash, HMAC, DH, AEAD and signature. |
| EdhocVerdict.InitiatorSucceeds | modules/edhoc/src/initiator.c:211-567 | Success, whatever was received, means the right MAC_2 or a verified signature, and a session of the hashes and keys written out. |
| EdhocVerdict.ErrorMessageEnds | modules/edhoc/src/initiator.c:83-95 | A text string in the place of G_Y ends the run as an error message, or for lack of room. |
| EdhocResponder.SelectedSuiteIsSupported | modules/edhoc/src/responder.c:127-135 | True exactly when the suite is in the list. |
| EdhocResponder.CreateMessage2 | modules/edhoc/src/responder.c:294-413 | The responder's keys, ciphertext_2 and message 2, or the error of the step that fails. |
| EdhocResponder.ReceiveMessage3 | modules/edhoc/src/responder.c:418-503 | Parsed, decrypted and split message 3, or the error. |
| EdhocResponder.EdhocResponderRun | modules/edhoc/src/responder.c:254-581 | Messages sent and outcome are those of the run as a function of messages 1 and 3, on every path; a message longer than its 256-byte buffer is not received. |
| EdhocVerdict.UnsupportedSuite | modules/edhoc/src/responder.c:286-294 | With a selected suite outside its list the responder fails and sends at most an error message, written out; never message 2. |
| EdhocVerdict.AnswerWritten | modules/edhoc/src/responder.c:294-413 | TH_2, PRK_2e, PRK_3e2m, authenticator and ciphertext_2 of the responder written out; it answers only suites 0 to 3 and methods 0 to 3. |
| EdhocVerdict.Open3Written | modules/edhoc/src/responder.c:418-503 | TH_3 written out, and the plaintext that the AEAD opens under the written-out key, IV and associated data. |
| EdhocVerdict.Message3NotOpened | modules/edhoc/src/responder.c:476-493 | What it does not open ends the run with the AEAD's error. |
| EdhocVerdict.VerdictOnMac3 | modules/edhoc/src/responder.c:548-559 | With methods 2 and 3 the run goes on exactly for the one MAC_3 of its own TH_3 and PRK_4x3m, written out; any other of full length brings the error message and failure. |
| EdhocVerdict.VerdictOnSignature3 | modules/edhoc/src/responder.c:560-576 | Otherwise it goes on exactly when the signature verifies over the written-out Sig_structure. |
| EdhocVerdict.ResponderSucceeds | modules/edhoc/src/responder.c:254-581 | Success, whatever was received, means a supported suite, an opened message 3, the right MAC_3 or a verified signature, and a session of the hashes and keys written out. |
| EdhocVerdict.LongMessages | modules/edhoc/src/responder.c:254-280 | Messages of more than 256 bytes are not received by either party. |
| EdhocAgreement.StartHonest | modules/edhoc/src/initiator.c:223-252 | Message 1 of an honest initiator is read by the responder with method, suite, G_X and C_I intact. |
| EdhocAgreement.AnswerHonest | modules/edhoc/src/responder.c:294-413 | On it the responder always sends message 2, its parts fitting all buffers. |
| EdhocAgreement.Open2Honest | modules/edhoc/src/initiator.c:267-331 | The initiator derives the responder's TH_2 and PRK_2e and recovers identifier and authenticator. |
| EdhocAgreement.Accept2Honest | modules/edhoc/src/initiator.c:353-398 | It derives the same PRK_3e2m and accepts the authenticator. |
| EdhocAgreement.Seal3Honest | modules/edhoc/src/initiator.c:400-552 | It sends message 3 exactly when C_R is below 48. |
| EdhocAgreement.Open3Honest | modules/edhoc/src/responder.c:418-503 | With corr = 1 the responder derives TH_3, decrypts, and recovers identifier and authenticator. |
| EdhocAgreement.Open3Fails | modules/edhoc/src/responder.c:312-317 | With corr = 3 it cannot open the message 3 of the initiator. |
| EdhocAgreement.Accept3Honest | modules/edhoc/src/responder.c:528-578 | The responder derives the same PRK_4x3m and accepts the authenticator. |
| EdhocAgreement.Agreement | modules/edhoc/src/responder.c:254-581 | For every method, suite, key and credential in the domain, if everything received is what the other party sent, both runs succeed exactly when corr is 1 and C_R is below 48, and then with equal TH_2, TH_3, TH_4, PRK_2e, PRK_3e2m and PRK_4x3m. |
| EdhocVerdict.AgreementKeys | modules/edhoc/src/prk.c:19-44 | In that case all three messages, all three hashes and all three keys are written out with the secret and public keys of both parties, for every method. |
| EdhocVerdict.KeyBinding | modules/edhoc/src/prk.c:19-44 | Equal PRK_4x3m of two sessions of a method mean that all shared secrets in them are equal, or a named HMAC collision. |
| EdhocAgreement.ExchangeExists | modules/edhoc/src/initiator.c:211-567 | Honest parties can always exchange messages in this way. |
| EdhocAuthentication.InitiatorAuthenticates | modules/edhoc/src/initiator.c:364-398 | Whatever arrives: without an authenticator that passes the check over its own TH_2 the initiator does not succeed and sends nothing after message 1 but an error message; what passes states EdhocVerdict.InitiatorSucceeds. |
| EdhocAuthentication.ResponderAuthenticates | modules/edhoc/src/responder.c:540-581 | Whatever arrives: the responder succeeds only with an authenticator that passes the check over its own TH_3, and a failed check leads to an error message and failure; what passes states EdhocVerdict.ResponderSucceeds. |
| EdhocAuthentication.CheckedMeansClaimed | modules/edhoc/src/signature_or_mac_msg.c:38-96 | A checked signature that is not forged means that the key's holder signed a claim over the same transcript hash and credentials. |
| EdhocAuthentication.ResponderTookPart | modules/edhoc/src/initiator.c:364-398 | If the initiator succeeds on a signature that is not forged, a session of its signer had the same message 1, G_Y and C_R, or two inputs collide; message 1 may carry AD_1 or several suites. |
| EdhocAuthentication.InitiatorTookPart | modules/edhoc/src/responder.c:540-581 | If the responder succeeds on one, a session of its signer had the same TH_2, ciphertext_2 and C_R, or two inputs collide. |
| EdhocAuthentication.Msg1IsSequence | modules/edhoc/src/initiator.c:139-209 | Message 1 as it is written is a sequence of items, as transcript binding asks for. |
| EdhocAuthentication.AnswerClaims | modules/edhoc/src/responder.c:355-377 | A signing responder signs exactly one claim, over the TH_2 of the message 1 it received and its own G_Y and C_R, and sends that signature in message 2. |
| EdhocAuthentication.SealClaims | modules/edhoc/src/initiator.c:427-455 | A signing initiator signs exactly one claim, over its own TH_3, and sends that signature in message 3. |
| EdhocAuthentication.MacBinding | modules/edhoc/src/signature_or_mac_msg.c:98-159 | Equal MACs are made over the same transcript hash, identifier, credential and data, or collide. |
| EdhocAuthentication.StaticResponderTookPart | modules/edhoc/src/initiator.c:364-383 | If the initiator succeeds on a MAC of a static DH key that is not forged, a session in which it was made had the same message 1, G_Y and C_R, or two inputs or two MACs collide. |
| EdhocAuthentication.StaticInitiatorTookPart | modules/edhoc/src/responder.c:540-559 | If the responder succeeds on one, a session in which it was made had the same TH_2, ciphertext_2 and C_R, or two inputs or two MACs collide. |

## Left out

- Class-I options in `modules/oscore/src/option.c:79-138`: the filter never selects one, so that encoder emits nothing; only its length loop is modelled.
- Packets whose fields C truncates on writing: version and type are two bits and the token at most 8 bytes by type, as the packet parser leaves them.
- Non-empty auxiliary data AD_1, AD_2 and AD_3 in what EDHOC sends; received data is decoded and authenticated.
- Indefinite-length, tagged and floating-point CBOR items: the reader knows integers, strings, array and map heads and null.
- A map head where EDHOC expects a string: C sets a length and leaves the buffer unwritten, the model reads the empty string or `Undefined`.
- Certificate parsing and verification, and the search for a credential (`modules/edhoc/src/retrieve_cred.c`): a lookup function from ID_CRED to credential and keys.
- Failures of `tx` and `rx`: received messages are parameters of a run, sent messages its result; of `rx`, which the application supplies, only the refusal of a message longer than the buffer is modelled.
- The exporter (`modules/edhoc/src/edhoc_exporter.c`): one more call of `EdhocMac.OkmCalc`.
- The replay window, which the code declares as not implemented.
- AES-CCM, SHA-256, X25519 and Ed25519 themselves, and their failure codes: functions with the laws above.
- Buffer sizes for raw public keys: the larger set of sizes in `modules/edhoc/edhoc.h:44-56` is used.
- Pointer identity: options and payloads of a parsed packet are values, not references into the received buffer.
- OscoreValue.ParseOscoreOption: a value shorter than its flags promise is `Undefined`; the C code reads on in the received packet, whose bytes an option as a value does not carry, and may go on to update the context from them.
- RoundTripExact.RequestRecoveredExactly: the exception for an AEAD that opens what was not sealed concerns packets with a marker inside the outer option bytes or with unreadable outer options, and only an AEAD with authenticity could exclude it.
- RoundTripExact.ResponseRecoveredExactly: likewise.
- EdhocAgreement.Agreement: key ids of 48 and more, and an ID_CRED of the initiator above 171 or of the responder above 152 bytes, with which a message can exceed its 256-byte buffer, are outside its domain; what happens to such a key id is in EdhocPlaintext.PlaintextRoundTrip, and multi-suite lists are in EdhocMessages.Msg1RoundTrip.
- Runs.NumbersIncrease: runs in which the 64-bit counter itself would wrap are outside its domain.
- EdhocAuthentication.StaticResponderTookPart: the MAC key is shared by both parties, so that a MAC was made by the responder, and not by the initiator itself, is part of the assumption.
- EdhocAuthentication.StaticInitiatorTookPart: likewise for the initiator.
