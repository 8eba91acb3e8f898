# wolfTPM host stack: a verified model

This project models the host side of the TPM 2.0 command protocol as wolfTPM implements it, and proves properties of the
model with Dafny. `dafny verify dfyconfig.toml` checks all of it.

What the code does step by step is written as methods over a packet buffer, session slots, hash contexts or a device log, and
each method is proved equal to a function of its inputs and the old state (or to the property the code promises). The theorems
are then lemmas about those functions, over all inputs, all reachable states or whole runs.

| file | what it models |
|---|---|
| `Octets.dfy`, `Tpm.dfy`, `Sessions.dfy` | byte strings and buffers; constants and assumed primitives; sessions and command information |
| `Packets.dfy`, `PublicArea.dfy`, `Structures.dfy`, `Attest.dfy` | marshalling: guarded appends, clamping parsers, back-patched sizes, tagged unions |
| `ParamEnc.dfy` | KDFa, XOR and AES-CFB parameter encryption, cpHash, rpHash and HMAC |
| `Commands.dfy`, `CommandTheorems.dfy`, `Wire.dfy` | the two passes over the auth area, their agreement, and the exact bytes that go out |
| `Responses.dfy`, `ResponseTheorems.dfy`, `ResponseGuard.dfy` | checking an authorised response; exactly which sessions verify before they decrypt |
| `Exchange.dfy`, `ExchangeTheorems.dfy`, `AnswerTheorems.dfy` | building, sending and checking one command; what its result says about the answer |
| `Peer.dfy`, `TpmCrypto.dfy` | an idealised TPM with its own names, hashes, HMACs, keys and ciphers (sections 16, 18.7, 18.8, 19.6.5 and 21 of TPM 2.0 Part 1, section 5.1 of NIST SP 800-108) |
| `PeerCrypto.dfy`, `PeerTheorems.dfy`, `Lockstep.dfy` | the host's cryptography is the TPM's; host and TPM over one exchange and over whole runs |
| `TisLock.dfy` | the counted lock over a named semaphore with interleaved processes |
| `TisDevice.dfy`, `TisTransport.dfy` | the device's signals and what a device owes that answers in time; one command through the TIS FIFO |
| `Pss.dfy`, `PssVerify.dfy`, `Pkcs1.dfy` | PSS encoding and MGF1 against the standard's verification, PKCS#1 v1.5 type 1 padding |
| `HashCache.dfy` | the shared hash cache |
| `Asn.dfy` | DER lengths and headers, the certificate walk and the printer it inverts |
| `PcrSelection.dfy`, `Nonce.dfy` | PCR selections as sets; filling a nonce from the TPM |

Of the cryptographic primitives (hash, HMAC, AES-CFB) only output lengths are assumed, and that CFB decryption undoes CFB
encryption; the theorems hold for every choice of functions with these properties. The random number generator, the device
behind the transport, the lock's outcome and the TPM's answers are arbitrary functions of everything that came before.

## Results worth knowing

- `Lockstep.InStep`: host and TPM never get out of step, over any number of exchanges with one encrypting session. `RunsExist`
  shows that, whatever the primitives, such runs exist at every length with encryption both ways, with a policy session in
  slot 0 and with a password in slot 0 and an HMAC session in slot 1.
- The semaphore's value plus the number of processes with a positive lock count is not always 1: while a process has obtained the
  semaphore and not yet counted, or has uncounted and not yet posted, it is 0 (`TisLock.SumFailsInWindow`). It is 1 exactly
  outside those windows and while no post has failed (`TisLock.SemaphorePlusLocked`); mutual exclusion holds in every state.
- Verify-before-decrypt does not hold for every session: one that is neither a password nor an HMAC or policy session has
  its response parameter decrypted without any HMAC (`ResponseGuard.UnkeyedIsUnverified` gives the input). With one session
  that is not a password it holds, for every suite, response and buffer, if and only if that session is an HMAC or policy
  session, or the command has no encryptable response parameter, or the session has no usable cipher
  (`ResponseGuard.VerifiedIffGuarded`).
- A call never hides the TPM's verdict: a response code other than 0 is returned as it is, with the sessions as the command pass
  left them, and 0 only for a response that says so (`Exchange.AnswerDecides`); a success that is not tagged as a response with
  sessions is taken as it is, without a check.
- With a device that answers in time and keeps to its own signals `TPM2_TIS_SendCommand` succeeds with exactly the device's
  response (`TisTransport.Tis.SendCommand`); such devices exist for every command and response (`TisDevice.PunctualExists`).
- The default salt of `RsaPadPss` fits every key of 1024 bits and more except SHA-512 under 1025 to 1033 bits
  (`Pss.DefaultSaltFits`).
- While a process runs one command no other process accesses a register between its first and its last access, in any
  interleaving (`TisLock.CommandUninterrupted`); `TisTransport.Tis.SendCommand` has the shape this needs on every path that gets
  the lock.
- `TPM2_ASN_RsaUnpadPkcsv15` accepts one family that is not of the proper form: a block with nothing but FF behind the type, if
  the byte beyond the block is zero; the size is then -1 (`Pkcs1.AcceptedIff`).
- `TPM2_TIS_SendCommand` tests the burst count's return code with `rc < 0`, so a positive error code of the I/O callback does
  not end the command there; the count that was read is used, and the bounds of `TisDevice.Paced` hold all the same.
- The caller of `RsaPadPss` passes eight times the modulus size as the key length in bits, so it never reaches the case in which
  the encoding is one octet shorter than the modulus; the model proves both cases for every key length.

## Where the code and its comments differ

The model follows the code.

- The comment on `TPM2_GetCmdAuthCount` promises the number of populated sessions when no command information is given; the
  code then always returns 0.
- A comment in `TPM2_Packet_AppendAuth` speaks of a 16-byte SHA-256 nonce; the code reserves the 32 bytes of the digest.

## Model

| member | source | states |
|---|---|---|
| Lockstep.InStep | src/tpm2.c:456-530 | over any run of exchanges with one keyed session every exchange succeeds on both sides, each side recovers the other's plaintext parameters, and both hold the same session and the same nonce pair after each exchange |
| Lockstep.OneExchange | src/tpm2.c:175-275 | one delivered exchange: the TPM's recomputed HMAC over the bytes on the wire matches, the host accepts the response, plaintexts agree, and both sides end up with the host's fresh nonce and the TPM's new one |
| Lockstep.RunsExist | src/tpm2.c:456-530 | the premises of the run theorem can be met for runs of every length, with the first parameter encrypted in both directions, by a policy session in slot 0 and by an HMAC session in slot 1 behind a password |
| Lockstep.CommandServed | src/tpm2.c:128-275 | the TPM reads, authenticates and serves the command the host builds, and the host's session keeps its fresh nonce |
| Lockstep.Accepts | src/tpm2.c:295-422 | the host's response processing accepts what the TPM answers, takes its new nonce and ends up with the plain parameters in the buffer |
| PeerTheorems.CommandArrives | src/tpm2.c:128-288 | the command on the wire is read back as the command code, the handles, one authorisation for each counted session and the parameters as they were sealed |
| PeerTheorems.CommandAccepted | src/tpm2_param_enc.c:480-663 | the HMAC the TPM computes over names, parameters, nonces and attributes is the one the host sent, and passwords match |
| PeerTheorems.NamesAgree | src/tpm2.c:6603-6637 | the host takes a session's name exactly for the handles whose type gives them a name of their own |
| PeerTheorems.ResponseOpened | src/tpm2.c:343-411 | the HMAC the host computes over a response of the TPM is the one it carries, and the first parameter decrypts to what the TPM meant |
| PeerTheorems.ResponseLaidOut | src/tpm2.c:303-328 | response parameters, first parameter and authorisations are found exactly where the TPM put them |
| PeerTheorems.DecipherEncipher | src/tpm2_param_enc.c:666-735 | a first parameter behind its size field, encrypted by one side, is restored by the other side with the same two nonces |
| PeerTheorems.AnswerFound | src/tpm2.c:330-341 | session slot k is given the k-th authorisation of the response |
| Peer.RequestReadBack | src/tpm2_packet.c:257-273 | header, handles, auth area and parameters of a well-formed command are read back as what they were made of |
| Peer.ReadAuthsAt | src/tpm2_packet.c:257-273 | the auth area parses into exactly the authorisations appended to it |
| CommandTheorems.CountMonotone | src/tpm2_packet.c:279-338 | adding command flags or session attributes never lowers the number of counted authorisations, across the early break |
| CommandTheorems.HmacFirstNotCounted | src/tpm2_packet.c:310-318 | an HMAC session in slot 0 counts for no more than an idle one: the whole count is the same with either, whatever the later slots hold |
| CommandTheorems.PasswordThenHmac | src/tpm2_packet.c:279-338 | the exact count with a password in slot 0 and an HMAC session in slot 1: which attribute serves which flag, and audit any command |
| CommandTheorems.SentAttrsBits | src/tpm2.c:211-218 | decrypt and encrypt are sent exactly if set and the command has such a parameter; the other attributes are sent as they are |
| CommandTheorems.NothingCountedWithoutInfo | src/tpm2_packet.c:274-338 | without command information the count is 0, whatever the sessions |
| Commands.GetCmdAuthCount | src/tpm2_packet.c:279-338 | the counting loop computes the recursive count and stays within the session slots |
| Commands.CountFrom | src/tpm2_packet.c:279-338 | the count lies between the count so far and one for every slot left |
| Commands.Context.AppendAuth | src/tpm2_packet.c:340-401 | reserving: the size field, the position and the sessions afterwards are those of the reservation function |
| Commands.Context.CommandProcess | src/tpm2.c:114-293 | filling in place: return code, buffer, position and sessions are those of the fill function, on every path |
| Commands.Context.FillSlotAt | src/tpm2.c:175-275 | one turn of the fill loop: nonce, first-parameter encryption, cpHash, HMAC and the authorisation in place |
| Commands.Context.GetName | src/tpm2.c:6603-6637 | the name of a handle: the session's name for objects and NV indices, the handle for others, empty beyond the handle count |
| Commands.AppAuthCommandFits | src/tpm2_packet.c:257-273 | an authorisation appended field by field is its wire form |
| CommandTheorems.ReservedIffAgrees | src/tpm2_packet.c:349-395 | the bytes reserved for a session equal the bytes written for it if and only if its slot meets the stated condition |
| CommandTheorems.SucceedsIffReserved | src/tpm2.c:277-288 | once all slots are filled, the command succeeds exactly when the size field holds what they take, else BUFFER_E |
| CommandTheorems.SuccessKeepsTheRest | src/tpm2.c:114-293 | on success, for any sessions, header, handles, auth size field and every parameter byte outside the first parameter are unchanged |
| ExchangeTheorems.ReserveFillAgree | src/tpm2_packet.c:340-401 | end to end: when every counted slot meets the condition, a built command never fails for a size mismatch |
| ExchangeTheorems.Built | src/tpm2_packet.c:1238-1247 | the bytes of a built command: header, handles, reserved size, a gap of that size, parameters |
| ExchangeTheorems.BuiltWellFormed | src/tpm2.c:140-173 | a built command meets every assumption of the fill pass and is read back as it was built |
| Wire.CommandWire | src/tpm2.c:114-293 | the exact bytes sent: untouched front, the authorisations over the parameters as sent, those parameters |
| Wire.FillSlotsWire | src/tpm2.c:175-275 | the loop's authorisations lie one behind the other and cover the encrypted parameters |
| Wire.EncryptedParams | src/tpm2.c:226-235 | encrypting in the buffer is encrypting the first parameter behind its size field, and nothing before it changes |
| Responses.ResponseProcess | src/tpm2.c:295-422 | return code, sessions and buffer are those of the response function, on every path |
| Responses.CheckSession | src/tpm2.c:343-418 | one session's check: nonce taken, HMAC compared, first parameter decrypted |
| Responses.Roll | src/tpm2.c:344-348 | only the TPM nonce of a session changes, and it stays within its buffer |
| ResponseTheorems.VerifyBeforeDecrypt | src/tpm2.c:295-422 | for any one session that is not a password: TPM_RC_HMAC if and only if it is an HMAC or policy session and the recomputed HMAC differs; the buffer is byte-identical on every error, and for a guarded session whenever the response is not genuine; otherwise only the first response parameter can differ; other sessions are untouched |
| ResponseTheorems.OneSlotDecides | src/tpm2.c:330-419 | with one session that is not a password the outcome is that session's check against its own authorisation |
| ResponseGuard.VerifiedIffGuarded | src/tpm2.c:330-419 | for every suite, response and buffer, response bytes change only if the response is genuine, if and only if the one session that is not a password is keyed, or nothing is decryptable, or it has no usable cipher |
| ResponseGuard.UnkeyedIsUnverified | src/tpm2.c:350-411 | the input on which it fails: an unkeyed session in slot 0 behind one counted password, a response without HMAC, success and a changed buffer |
| Exchange.SendCommandAuth | src/tpm2.c:456-530 | the whole exchange, on every path the state of the exchange function; for an answer that arrives, 0 is returned only if its bytes 6 to 9 are 0, and any other code there is returned as it is with the sessions as the command pass left them |
| Exchange.AnswerDecides | src/tpm2.c:493-530 | which of its five ends a call takes, told from the bytes of the answer: an error before sending, a lost answer, an error code, a success without sessions, a checked success |
| AnswerTheorems.RefusalReturned | src/tpm2.c:505-530 | a command the idealised TPM refuses ends with TPM_RC_FAILURE, its response code |
| AnswerTheorems.SuccessIsAuthentic | src/tpm2.c:456-530 | a call with one HMAC or policy session that succeeds on a response with sessions got the HMAC of that response under the session's key and both nonces, written out |
| AnswerTheorems.AuthMissingIff | src/tpm2.c:478-484 | TPM_RC_AUTH_MISSING if and only if the command is tagged as one with sessions and has no authorisation, unless generator, transport or TPM report that code; nothing is changed then |
| Exchange.BuildCommand | src/tpm2.c:1837-1890 | the wrappers' pattern of handles, reserved auth area, parameters and header |
| Exchange.ParseResponse | src/tpm2_packet.c:1223-1236 | response code and size come from the header, and the packet ends where the response ends |
| Exchange.FinalizeWhole | src/tpm2_packet.c:1238-1247 | finalising writes the ten header bytes and nothing else |
| ParamEnc.KDFa | src/tpm2_param_enc.c:82-180 | octet j is octet j mod h of the HMAC over counter j / h + 1, label with its zero octet, contextU, contextV and the number of bits; nothing past keySz octets is written, and keySz is returned; an unknown hash changes nothing |
| ParamEnc.KdfOctet | src/tpm2_param_enc.c:112-172 | the same of the key stream, whatever the digest size |
| PeerCrypto.CiphersAgree | src/tpm2_param_enc.c:199-478 | both ciphers are the TPM's own, written from the standards: labels, order of nonces, session key before bind key, AES key before initial vector |
| ParamEnc.KdfRound | src/tpm2_param_enc.c:120-160 | the pieces fed to one HMAC are counter, label with its zero byte, contexts and size |
| ParamEnc.StreamSettled | src/tpm2_param_enc.c:112-172 | however many blocks are produced, the requested prefix is the same |
| ParamEnc.DecryptEncrypt | src/tpm2_param_enc.c:199-478 | decryption with the same key and nonces restores the data, for XOR and AES-CFB, with or without a bind key |
| ParamEnc.ParamXor | src/tpm2_param_enc.c:199-321 | in place, exactly the parameter is combined with the mask; every error leaves the buffer as it was |
| ParamEnc.ParamAesCfb | src/tpm2_param_enc.c:325-478 | in place, exactly the parameter is encrypted or decrypted under the derived key and IV; every error leaves the buffer as it was |
| ParamEnc.ParamEncCmdRequest | src/tpm2_param_enc.c:666-700 | the caller's nonce is the newer one in a command; the algorithm chooses the cipher |
| ParamEnc.ParamDecCmdResponse | src/tpm2_param_enc.c:702-736 | the TPM's nonce is the newer one in a response |
| ParamEnc.CalcCpHash | src/tpm2_param_enc.c:480-552 | cpHash is the hash of four octets of command code, the names in order, then the parameters |
| PeerCrypto.CommandHmacIs | src/tpm2_param_enc.c:480-664 | a command's HMAC as the host computes it is the TPM's: over hash, newer nonce, older nonce and attributes in that order |
| PeerCrypto.ResponseHmacIs | src/tpm2_param_enc.c:554-664 | a response's HMAC likewise, its hash over response code, command code and parameters |
| ParamEnc.RpMessageDetermines | src/tpm2_param_enc.c:554-601 | what is hashed for a response is the same for two responses if and only if command code and parameters are the same |
| ParamEnc.AuthMessageDetermines | src/tpm2_param_enc.c:603-664 | between digests and nonces of equal lengths, what an HMAC covers is the same if and only if parameter hash, newer nonce, older nonce and attributes all are, in their order |
| Packets.GetSizedAt | src/tpm2_packet.c:403-419 | a clamped read ends where the whole field ends and keeps what there is room for |
| Packets.MarkedPlace | src/tpm2_packet.c:203-255 | marking, appending and placing the size is appending the body behind its size |
| Packets.App | src/tpm2_packet.c:86-184 | a field is written whole or not at all, and nothing before or after it changes |
| Packets.Packet.AppendBytes | src/tpm2_packet.c:178-185 | guarded append of bytes |
| Packets.Packet.ParseU | src/tpm2_packet.c:93-168 | guarded big-endian read; 0 without advance beyond the packet |
| Packets.Packet.ParseBytes | src/tpm2_packet.c:186-201 | the copy is truncated at the packet's end, the position advances all the same |
| Packets.Packet.PlaceSize | src/tpm2_packet.c:212-255 | the number of bytes since the marker is written into it and returned |
| PublicArea.PublicRoundTrip | src/tpm2.c:7273-7314 | parsing an appended public area gives the same value, consumes exactly what was written, and sizeUsed is pub.size + 2 |
| PublicArea.GetPublicAt | src/tpm2_packet.c:801-885 | any public area on the wire parses to its clamped value and the parser stops right behind it |
| PublicArea.AppPublicFits | src/tpm2_packet.c:698-799 | with room in the buffer the appended public area is its wire form behind its size |
| PublicArea.AppendPublicTo | src/tpm2.c:7273-7296 | the exported operation writes the wire form and reports its length |
| PublicArea.ParsePublicFrom | src/tpm2.c:7298-7314 | the exported parser and the number of bytes it used |
| PublicArea.AppendPublicArea | src/tpm2_packet.c:757-791 | every key type, the default arm included, field by field |
| PublicArea.ParsePublic | src/tpm2_packet.c:801-885 | the imperative parser computes the parse function |
| PublicArea.ParseEccPoint | src/tpm2_packet.c:596-627 | both coordinates are clamped reads, one behind the other |
| PublicArea.AppendSymmetric | src/tpm2_packet.c:484-501 | which fields of a symmetric definition are sent depends on the algorithm |
| PublicArea.ParseSymmetric | src/tpm2_packet.c:503-522 | and the parser expects the same fields |
| PublicArea.ParsePublicParms | src/tpm2_packet.c:727-755 | parameters by key type |
| Structures.GetSignatureAt | src/tpm2_packet.c:923-992 | any signature on the wire parses to its clamped value, in step with the wire |
| Structures.ParseSignature | src/tpm2_packet.c:923-992 | the imperative parser computes the parse function |
| Structures.GetAuthAt | src/tpm2_packet.c:403-431 | any response authorisation parses to its clamped value, in step with the wire |
| Structures.ParseAuth | src/tpm2_packet.c:403-431 | the imperative parser computes the parse function |
| Structures.GetPcrAt | src/tpm2_packet.c:450-482 | however many banks and however wide, the parser keeps what fits and ends behind the last one |
| Structures.ParsePcr | src/tpm2_packet.c:450-482 | the imperative parser computes the parse function |
| Attest.GetAttestAt | src/tpm2_packet.c:994-1221 | any attestation on the wire parses to its clamped value, whatever oversized fields precede a field |
| Attest.ParseAttest | src/tpm2_packet.c:994-1221 | the imperative parser computes the parse function |
| TisLock.Exclusion | src/tpm2_tis.c:106-162 | at most one process holds the lock, in every state of every interleaving |
| TisLock.SemaphorePlusLocked | src/tpm2_tis.c:106-162 | semaphore plus locked processes is at most 1, and exactly 1 if and only if no process is in a window and no post has failed |
| TisLock.SumFailsInWindow | src/tpm2_tis.c:128-140 | a run in which that sum is 0 |
| TisLock.AccessesContiguous | src/tpm2_tis.c:177-253 | no other register access falls between the first and the last access of one hold |
| TisLock.CommandUninterrupted | src/tpm2_tis.c:438-585 | in any run, between the first and the last access of one command of a process, nested locks included, no other process accesses a register |
| TisLock.LostStops | src/tpm2_tis.c:144-162 | once a post has failed, no register is accessed and no semaphore obtained in any later state of the run |
| TisLock.LostStep | src/tpm2_tis.c:112-142 | one such step |
| TisLock.StepOneUnit | src/tpm2_tis.c:106-162 | every step keeps the one unit where it is: in the semaphore, with one process, or lost |
| TisLock.StepGrouped | src/tpm2_tis.c:106-162 | every step keeps the accesses grouped by hold |
| TisLock.RunInv | src/tpm2_tis.c:106-162 | the invariant holds in every state of every run |
| TisTransport.Tis.SendCommand | src/tpm2_tis.c:438-585 | on success the device got exactly the command before it was told to execute and the buffer holds exactly what it gave back; on every path the lock count is restored, all accesses fall into one hold between one lock and the unlock that belongs to it, as `TisLock.CommandUninterrupted` requires, and every transfer is 1 to min(burst, frame) bytes; data are read only once the device showed that they are there, and written only when it asked for them; with a device that answers in time it succeeds with that device's response |
| TisDevice.PunctualExists | src/tpm2_tis.c:438-585 | devices that answer in time exist for every command and response |
| TisTransport.Tis.MakeReady | src/tpm2_tis.c:454-469 | success means the last status read shows that the device is ready for a command |
| TisTransport.Tis.Await | src/tpm2_tis.c:370-387 | a signal that is due comes within the tries |
| TisTransport.Tis.WriteCommand | src/tpm2_tis.c:471-500 | the command goes out in order in pieces the device has room for |
| TisTransport.Tis.WritePiece | src/tpm2_tis.c:472-494 | one piece, from 1 byte to what is left and within the burst count |
| TisTransport.Tis.ReadResponse | src/tpm2_tis.c:524-565 | the size is taken once, from the complete header, and the response read is as long as announced, its header at least |
| TisTransport.Tis.ReadPiece | src/tpm2_tis.c:526-551 | one piece of the response, read after the device showed data and appended behind the others; from a device that answers in time it is the next piece of its answer |
| TisTransport.Tis.Execute | src/tpm2_tis.c:502-522 | execution is ordered once, after the device showed that it holds a complete command |
| TisTransport.Tis.WaitForStatus | src/tpm2_tis.c:370-387 | it ends within the allowed tries; success means the last status read showed the bits |
| TisTransport.Tis.GetBurstCount | src/tpm2_tis.c:396-436 | it ends within the allowed tries; success means a positive count, clamped to the frame size |
| TisTransport.Tis.Lock | src/tpm2_tis.c:106-143 | nested locking cannot fail; a first lock takes the semaphore's unit or fails without effect |
| TisTransport.Tis.Unlock | src/tpm2_tis.c:144-162 | the last unlock gives the unit back |
| TisTransport.Tis.TakePiece | src/tpm2_tis.c:544-551 | exactly the bytes the device gave are put behind those read before |
| TisTransport.Tis.Submit | src/tpm2_tis.c:438-585 | the transport as the exchange uses it: an answer delivered in the packet's size, given for exactly this command and lying in front of the buffer, or an error and what was read by then |
| TisTransport.DeliversAnswer | src/tpm2_tis.c:553-563 | a completed response is delivered in the packet's size, as the exchange above relies on |
| TisDevice.SeenQuiet | src/tpm2_tis.c:365-393 | status and burst accesses do not change what the device has seen of the command and given of the response |
| Pss.RsaPadPss | src/tpm2_cryptocb.c:979-1083 | every error in its order, else the block is the PSS encoding for the key's bits, behind a zero octet when hiBits is 0, and ends with the hash of eight zero octets, digest and salt, and 0xBC; nothing beyond the block and the assembled message changes |
| Pss.DefaultSaltFits | src/tpm2_cryptocb.c:1027-1038 | for which keys the default salt length leads to no error |
| Pss.RsaMGF1 | src/tpm2_cryptocb.c:902-949 | octet j of the output is octet j mod h of the hash over seed and counter j / h, in place, and nothing else changes |
| Pss.EncodeVerifies | src/tpm2_cryptocb.c:1046-1080 | what is encoded is accepted by EMSA-PSS-VERIFY, section 9.1.2 of RFC 8017, stated octet by octet without the encoder's functions |
| Pss.VerifyIff | src/tpm2_cryptocb.c:1046-1080 | the encoder's masking is the standard's |
| Pss.VerifiedIsEncoded | src/tpm2_cryptocb.c:1046-1080 | and nothing else is: an accepted block is the encoding with the salt it holds |
| Pss.PaddedVerifies | src/tpm2_cryptocb.c:1019-1083 | the padded block verifies for hiBits = 0 and hiBits > 0 |
| Pss.MgfSettled | src/tpm2_cryptocb.c:926-945 | the mask does not depend on how many blocks were produced |
| Pss.CombineBlock | src/tpm2_cryptocb.c:1070-1080 | clearing the top bits of the mask and combining separator and salt into it gives the masked data block |
| Pkcs1.RsaPadPkcsv15Type1 | src/tpm2_cryptocb.c:796-824 | 0 if and only if there are 1 to blockLen - 11 bytes and the block is at most 512; the errors in their order, else 00 01 FF...FF 00 data with at least eight FF, and nothing beyond the block changes |
| Pkcs1.RsaUnpadPkcsv15 | src/tpm2_asn.c:360-381 | the loop computes the unpadding function |
| Pkcs1.RoundTrip | src/tpm2_asn.c:360-381 | unpadding a padded block gives back exactly the original bytes |
| Pkcs1.AcceptedForm | src/tpm2_asn.c:360-381 | a block accepted with a non-negative size has the proper form, and the slice is its data |
| Pkcs1.AcceptedIff | src/tpm2_asn.c:360-381 | exactly which blocks are accepted, the family with size -1 included |
| HashCache.CopiedLife | src/tpm2_cryptocb.c:503-586 | any interleaving of updates with finals of copies that share the context: each copy's digest is that of everything before it, the last one that of all data |
| HashCache.StreamedLife | src/tpm2_cryptocb.c:529-572 | the streaming path's digest is that of all data |
| HashCache.BothPaths | src/tpm2_cryptocb.c:503-586 | the cached path with copies finalised in between and the streaming path end in the same digest, that of all data |
| HashCache.CopiesLeaveNoTrace | src/tpm2_cryptocb.c:548-586 | finals of copies leave the data that the last digest covers as they were |
| HashCache.HashIn | src/tpm2_cryptocb.c:503-547 | an update adds its data to what is pending, in the cache or in the TPM's sequence |
| HashCache.HashOut | src/tpm2_cryptocb.c:547-586 | a final gives the digest of what is pending; a copy leaves the shared cache intact |
| HashCache.HashCtx.UpdateCache | src/tpm2_cryptocb.c:737-782 | the cache grows by the data; without memory it keeps what it had |
| HashCache.Device.HashUpdate | src/tpm2_wrap.c:6423-6465 | data reach the TPM whole and in order in pieces its buffer can take |
| Asn.GetLengthEx | src/tpm2_asn.c:43-80 | the loop computes the length function |
| Asn.LengthAt | src/tpm2_asn.c:43-80 | a length accepted with the check lies inside the bound |
| Asn.GetHeader | src/tpm2_asn.c:98-118 | the imperative header reader computes the header function |
| Asn.Decode | src/tpm2_asn.c:156-306 | on any input success implies that all three slices lie inside it and the signed part ends before the signature begins |
| Asn.DecodeX509Cert | src/tpm2_asn.c:156-306 | the imperative walk computes the decode function |
| Asn.LengthBack | src/tpm2_asn.c:43-80 | a printed length below 2^24 is read back |
| Asn.OpenPrinted | src/tpm2_asn.c:98-118 | a printed element is opened at its content and skipped to its end |
| Asn.DecodePrinted | src/tpm2_asn.c:156-306 | the walk finds exactly the signed part, the key and the signature of every printed certificate, section 4.1 of RFC 5280 |
| PcrSelection.SelectsWhatIsAsked | src/tpm2.c:6639-6688 | after any calls naming at most HASH_COUNT algorithms, banks are distinct and the selected pairs are exactly those asked for with an index in range |
| PcrSelection.SelectAdds | src/tpm2.c:6639-6675 | one call adds exactly its pair, if the index is in range and its algorithm has a bank or can get one |
| PcrSelection.SurvivesTheWire | src/tpm2_packet.c:433-482 | read back from the wire a selection denotes the same set |
| PcrSelection.Selection.SetupPCRSel | src/tpm2.c:6639-6675 | the in-place operation computes the selection function |
| PcrSelection.Selection.SetupPCRSelArray | src/tpm2.c:6680-6688 | the loop over an array of indices |
| PcrSelection.Selection.AppendPCR | src/tpm2_packet.c:433-449 | the selection's wire form is appended |
| NonceLoop.GetNonceNoLock | src/tpm2.c:6519-6580 | the loop ends; the buffer holds the gathered bytes front to back and is otherwise as it was |
| NonceLoop.GatheredAreReplies | src/tpm2.c:6519-6580 | the bytes gathered, on success or before an error, are the whole payloads of consecutive replies one behind the other, each asked for with what was then missing; on success they are as many as the nonce is long |
| NonceLoop.GenerousFills | src/tpm2.c:6519-6580 | with a TPM that returns as many bytes as the request asks for, every nonce is filled |
| NonceLoop.RequestAsks | src/tpm2.c:6549-6557 | the request asks for what is missing, 32 bytes at most |
| NonceLoop.Gather | src/tpm2.c:6519-6580 | success exactly when every nonce byte was filled |
| NonceLoop.DrawnIntoSession | src/tpm2.c:175-188 | a session's nonce after the loop, an error included, is what the fill pass leaves in the session |
| NonceLoop.FromTpmIsRng | src/tpm2.c:6519-6580 | the loop is a generator as the fill pass assumes one |
| NonceLoop.Take1 | src/tpm2.c:6558-6577 | an accepted reply brings at least one and no more than the missing or the requested maximum of bytes |
| NonceLoop.BuildRequest | src/tpm2.c:6550-6558 | the request that is sent |

## Left out

- The per-command wrappers, return-code and name tables, printing, hal/*, the Linux, simulator and Windows transports, SPDM, examples and board settings: repetitive or outside the core.
- Lockstep.InStep: covers sessions of which exactly one is an HMAC or policy session and the others passwords; commands under several keyed sessions are covered up to the fill and response functions only.
- Lockstep.InStep: starts from agreement after a session was set up; TPM2_StartAuthSession and the salt are not modelled.
- Lockstep.InStep: the TPM answers every command that it is sent once; lost or repeated commands and responses are not part of a run.
- Commands.Context.CommandProcess: a hash or HMAC primitive fails only for an unknown algorithm; failures inside wolfCrypt are not modelled. The bind pointer of a session is a value.
- Packets.Packet.ParseBytes: bytes beyond the packet's end, which the code leaves as they were in the target, read as zero.
- Responses.ResponseProcess: requires the declared parameter area to lie inside the buffer, which the code does not check.
- Responses.CheckSession: has the same requirement.
- Exchange.SendCommandAuth: has the same requirement on the answers of the transport.
- ResponseGuard.VerifiedIffGuarded: speaks of commands under one session that is not a password, as VerifyBeforeDecrypt does; with several, every check is that of Responses.CheckSession.
- TisTransport.Tis.SendCommand: the ST33 variant with its fixed burst count and without the wait before execution is not modelled, and neither is the frame layout that the I/O callback is handed.
- TisTransport.Tis.Read: is modelled inside a hold only; stand-alone register reads and locality requests are steps of `TisLock`.
- TisTransport.Tis.Unlock: the semaphore can always be opened; `TisLock` has the step in which it cannot.
- TisLock: a process does not die while it holds the semaphore.
- Pss.RsaPadPss: the buffer has room for 8 octets, digest and salt, which the caller's 512-byte buffer provides and the code does not check; salt lengths other than the default lie between 0 and 64.
- Pkcs1.RsaPadPkcsv15Type1: blocks shorter than the minimum padding, for which the length test wraps round, are excluded.
- HashCache.HashCtx.UpdateCache: the total length stays below the 32-bit limit, beyond which the size sum can wrap.
- HashCache.Device.HashUpdate: the TPM's sequence operations do not fail.
- HashCache.HashIn: an update and a final in one call, which needs no context, and HMAC contexts are not modelled.
- HashCache.HashOut: freeing the context is setting its buffer to null.
- NonceLoop.GetNonceNoLock: nonces of 65536 bytes and more, whose request size is truncated, and replies shorter than their size field are excluded; the build with the host's own generator is a parameter of `Commands`.
- Asn.Decode: says nothing about the key's slice lying inside the signed part, since the code bounds inner lengths by the input only.
- Sensitive areas, ECC point wrappers with an outer size, TrimZeros and the RSA public key decoder: easy members of the same kind.
- Constant-time behaviour, zeroisation and memory management.
