# wolfssl-rs: a verified model of its stateful and format-handling code

wolfssl-rs wraps wolfCrypt for Rust. Most of it is foreign-function glue; this project models the parts
that hold logic of their own, in Dafny, and proves what they are for:

- the AES half of the hardware callback layer: the GCM counter loop, tag and authenticate-then-decrypt,
  and CBC calls that share a chaining register (`GcmSpec`, `CbcSpec`, `HwAes`);
- the streaming hash and HMAC callbacks with their two global slots and counter (`HwHash`);
- the freestanding C string and memory routines, with overlap and `size_t` wrap-around (`BareMetal`);
- the SSH formats: wire types, algorithm names, the fields of keys, signatures, certificates, `sshsig`
  signatures, key derivation settings, key pairs and private keys (`SshWire`, `Utf8`, `Algorithms`, `KeyFields`,
  `Signatures`, `CertOptions`, `Certificates`, `SshSigs`, `Kdfs`, `Keypairs`, `PrivateKeys`), what their
  codecs preserve (`CertificateProofs`, `CertificateReads`, `CertificateResults`, `KeypairProofs`,
  `PrivateKeyProofs`), the same codecs as they run over a mutable reader and writer (`SshReader`, `Decoders`,
  `Encoders`, `PrivateEncoders`), and what is built on them: signing, verifying, certificate validation and
  password encryption (`Pkcs1`, `KeySigning`, `SshVerify`, `KeyEncryptionProofs`, `Operations`);
- the quote-aware option splitter of authorized_keys lines (`ConfigOpts`);
- the DPE provider's exported-CDI slots and alias key cache (`Dpe`);
- CMAC contexts that clone by replaying what they absorbed (`Cmac`).

`Bytes` holds what all of them share. `dafny verify dfyconfig.toml` checks the whole project.

## How to read it

Code that changes things in place is a class or a method with loops: the dispatchers, the hash device, the
string routines over one array of memory, the option iterator, the DPE provider, CMAC keys and contexts, and
the decoders and encoders stepping a `Reader` or `Writer`. Each is proved against a function, and the
properties of whole runs are lemmas about that function. Encoding functions take the bytes that follow as a
last argument and decoding functions return the bytes left over, so that a round trip says what happens to
the rest of the input as well.

All kinds of SSH keys are modelled: DSA, ECDSA, Ed25519, RSA, both security keys, opaque keys of any
algorithm, and certificates. A key is a list of length-prefixed fields, each of a kind with its own check
(`KeyFields.Fault`).

Foreign code is a record of functions with its laws as predicates: the block cipher and the GHASH
multiplication (`GcmSpec.Primitives`; only CBC needs decryption to invert encryption), hash and MAC engines
(streaming law), the CMAC library (streaming law, failure allowed anywhere; a failed update is taken to leave
the library's context as it was), wolfCrypt's key derivation and signing in DPE, the DER codec
(`Signatures.DerCodec`), the signature algorithms and hashes (`KeySigning.Scheme`), and the cipher library
with bcrypt-pbkdf (`Kdfs.Crypto`: names parse back, 8-byte blocks without a cipher and at most 16 with one,
decryption inverts encryption). Each set of laws is met by an instance given with it
(`CbcSpec.InPlaceDecryptExample`, `HwHash.RecordingIsStreaming`, `Cmac.RecordingLibraryStreams`,
`Signatures.SimpleCodecAgrees`, `KeySigning.LenientIsCorrect`, `Kdfs.TransparentIsLawful`), so none of them is
contradictory, and messages can be signed under them (`SshVerify.LenientSignsAll`). No law asks that a hash
has no collisions or that a key accepts only what its owner signed. Random values and clocks are arguments.
SHA-1, which RSA without a named hash needs, may be missing, as it is when that feature is off.

The encoding library is not part of the repository; the model takes from it that lengths are `uint32`, that
a prefixed section must be consumed to its end, that an mpint must not start with a superfluous zero, and
that a label is a UTF-8 string with no length limit of its own. From the SEC 1 library it takes which tags a
point may start with and how long each form is. Where the code panics, a function of the model has no value
or reports a failure.

## Where the code does not do what its documentation promises

Each point names lemmas at inputs where the promise fails and the one with the exact condition under which it
holds; for GCM the contract of the method states both.

- A certificate's to-be-signed bytes are not injective. A custom algorithm `ssh-ed25519@openssh.com` has the
  certificate name of Ed25519, and an opaque key may claim to be an Ed25519 one outright; a certificate for
  either and one for the Ed25519 key of the same bytes are signed alike, and the first reads back as the
  second (`CertificateResults.TbsCollision`, `RoundTripConfuses`). Another certificate with the same bytes has
  the same fields exactly when its signed part is canonical too (`TbsSameIff`).
- Not every key or certificate reads back as itself: an opaque key of a built-in algorithm does not, nor an
  ECDSA key at the identity (`CertificateResults.OpaqueEd25519`, `IdentityPointIsLost`; conditions in
  `RoundTripIff` and `KeyRoundTripIff`). The condition also excludes a certified key that is itself a
  certificate, which no decoder reads, and nested certificate names longer than an algorithm name may be.
- A certificate name with nothing before its suffix is read, but what is read has no name to be written or
  verified under, where the code panics (`Algorithms.NamelessExample`, `CertificateResults.NamelessCertificate`;
  conditions in `Algorithms.NamelessIff` and `CertificateResults.DecodedIff`).
- A certificate for an RSA key under either of the two names with a hash comes out, and is verified, under the
  name without one (`CertificateResults.RsaNameLost`; condition in `Algorithms.NameKeptIff`). Only then, or
  when an option wraps empty data, does writing what was read give other bytes (`ReencodedIff`).
- A custom algorithm may bear a built-in security-key name; signatures and private keys of such an algorithm
  do not read back, nor do opaque pairs of a built-in algorithm (`Signatures.RoundTripFails`,
  `PrivateKeyProofs.RoundTripFails`; conditions in the two `RoundTripIff`s). Nor does an Ed25519 pair whose
  public half is not that of its seed (`PrivateKeyProofs.MismatchedSeedFails`).
- A security key does not look at the label of a signature, and its ECDSA form skips what stands between the
  two integers and the trailer. So signatures it accepts are accepted labelled as RSA too, where the trailer is
  the end of the prefixed data instead of the five bytes behind it, and even with stray bytes before it
  (`KeySigning.RelabelledIsAccepted`, `StrayByteAccepted`). What is accepted is exactly stated by
  `SkEcdsaAcceptsIff` and `SkEd25519AcceptsIff`, which of it could bear the key's own label by `OwnLabelIff`,
  and where the trailer stood by `WireTrailerIsVerified`.
- An ECDSA key hashes by the curve of the signature's label, which need not be its own: a P-256 key accepts a
  signature labelled as one of P-384 over a SHA-384 digest (`KeySigning.OtherCurveAccepted`,
  `OtherCurveExample`; condition in `EcdsaAcceptsIff`).
- An unencrypted private key may carry up to 16 bytes of padding and is accepted
  (`PrivateKeyProofs.OverpaddedAccepted`, `OverpaddedExample`), but writing it again reproduces it only when
  the padding is below 8, its key and pair do not have an RSA name with a hash, and an ECDSA scalar is written
  in full with a leading zero exactly when it needs one (`RewrittenIff`).
- Decrypting CBC in place leaves the last plaintext block in the register instead of the last ciphertext
  block (`CbcSpec.InPlaceDecryptExample`, `ChainingHoldsIff`).
- GCM encryption with a null input pointer and a positive size, and only then, writes no ciphertext and
  authenticates what the output buffer held before (`HwAes.Dispatcher.DispatchGcmEncrypt`, the clause for a null
  input).
- GHASH framing stops being injective at exactly 2^61 bytes, where the 64-bit bit length wraps
  (`GcmSpec.FramesDistinctBelowIff`); no request can be that long.
- A hash Final answers under the type of the open slot, not the requested one, and a change of type between
  updates discards what came before (`HwHash.TypeChangeLosesData`, `TypeChangeExample`, `FinalIsOneShotIff`).
  The digest buffer must have room for the open slot's digest.
- The option iterator never yields one final empty piece, so a trailing comma is not reported
  (`ConfigOpts.TrailingCommaIsLost`, `TrailingCommaExample`, `NothingDroppedIff`).

## Model

| member | source | states |
|---|---|---|
| `GcmSpec.GctrInvolution` | wolfcrypt-dpe-hw/src/hw_aes.rs:439-467 | counter mode applied twice from the same counter block is the identity, for every length |
| `GcmSpec.RoundTrip` | wolfcrypt-dpe-hw/src/hw_aes.rs:330-393 | decrypting an encryption with its tag gives the plaintext; with any other tag it fails |
| `GcmSpec.GctrBytewise` | wolfcrypt-dpe-hw/src/hw_aes.rs:446-466 | output byte q is input byte q masked with byte q mod 16 of the encryption of the counter block 2 + q/16 |
| `GcmSpec.CounterBlockEquality` | wolfcrypt-dpe-hw/src/hw_aes.rs:457-463 | counter blocks of one IV coincide exactly at distance a multiple of 2^32, and meet J0 exactly at 2^32 - 1; blocks of different IVs never coincide |
| `GcmSpec.FreshCountersIff` | wolfcrypt-dpe-hw/src/hw_aes.rs:420-463 | the first n counter blocks are distinct from each other and from J0 if and only if n is below 2^32 |
| `GcmSpec.FreshCountersForRequest` | wolfcrypt-dpe-hw/src/hw_aes.rs:165-182 | every message whose length fits the 32-bit size field stays within that limit |
| `GcmSpec.LengthBlockReads` | wolfcrypt-dpe-hw/src/hw_aes.rs:409-416 | the length block reads back as the two bit lengths modulo 2^64, that of the associated data first |
| `GcmSpec.TagUnmasked` | wolfcrypt-dpe-hw/src/hw_aes.rs:399-432 | the tag unmasked with the encryption of the initial counter block is GHASH of the padded, framed data under the encryption of the zero block |
| `GcmSpec.FrameInjective` | wolfcrypt-dpe-hw/src/hw_aes.rs:404-416 | equal padded-and-framed strings come from equal associated data and equal ciphertext, below 2^61 bytes each |
| `GcmSpec.FramesDistinctBelowIff` | wolfcrypt-dpe-hw/src/hw_aes.rs:409-416 | framing is injective below a length limit if and only if the limit is at most 2^61 |
| `GcmSpec.AcceptedForgeryIsGhashCollision` | wolfcrypt-dpe-hw/src/hw_aes.rs:362-393 | accepting a tag on other associated data or ciphertext means two distinct framed strings with one GHASH value |
| `GcmSpec.AcceptedTwiceIsGhashCollision` | wolfcrypt-dpe-hw/src/hw_aes.rs:362-393 | one tag accepted for two different pairs of associated data and ciphertext means two distinct framed strings with one GHASH value |
| `HwAes.CtrProcess` | wolfcrypt-dpe-hw/src/hw_aes.rs:439-467 | the counter loop writes GCTR of the old input into the output, also in place, and touches nothing beyond |
| `HwAes.NextCounter` | wolfcrypt-dpe-hw/src/hw_aes.rs:457-463 | the byte-wise counter update is the 32-bit increment of SP 800-38D |
| `HwAes.UpdatePaddedIsGhash` | wolfcrypt-dpe-hw/src/hw_aes.rs:405-407 | a padded update is GHASH over the zero-padded data |
| `HwAes.PaddedUpdatesAreDigest` | wolfcrypt-dpe-hw/src/hw_aes.rs:404-418 | the three updates amount to one GHASH over the framed string |
| `HwAes.ComputeTag` | wolfcrypt-dpe-hw/src/hw_aes.rs:399-432 | the computed tag is the tag of SP 800-38D, wrapping 64-bit lengths included |
| `HwAes.GcmEncrypt256` | wolfcrypt-dpe-hw/src/hw_aes.rs:330-353 | the output holds GCTR of the plaintext, the tag authenticates the whole output slice, nothing else changes |
| `HwAes.GcmDecrypt256` | wolfcrypt-dpe-hw/src/hw_aes.rs:362-393 | on a matching tag 0 and the plaintext; on any other tag AUTH_E and every output byte unchanged |
| `HwAes.Dispatcher.DispatchGcmEncrypt` | wolfcrypt-dpe-hw/src/hw_aes.rs:127-189 | refused requests change nothing; accepted ones compute SP 800-38D encryption and count once; with a null input the old output is authenticated |
| `HwAes.Dispatcher.DispatchGcmDecrypt` | wolfcrypt-dpe-hw/src/hw_aes.rs:195-255 | refused requests change nothing; accepted ones compute SP 800-38D decryption and count even on failure |
| `HwAes.Dispatcher.DecryptBoth` | wolfcrypt-dpe-hw/src/hw_aes.rs:195-255 | two served requests under one key, nonce and tag that both succeed carry the same associated data and ciphertext, or collide under GHASH |
| `HwAes.Dispatcher.DispatchCbc` | wolfcrypt-dpe-hw/src/hw_aes.rs:261-320 | refused calls change nothing; served ones write CBC of the old input and leave the stated register, for distinct and identical buffers |
| `CbcSpec.CbcRoundTrip` | wolfcrypt-dpe-hw/src/hw_aes.rs:473-493 | CBC decryption inverts CBC encryption from the same register |
| `CbcSpec.CbcEncryptBlock` | wolfcrypt-dpe-hw/src/hw_aes.rs:473-482 | each ciphertext block is the encryption of its plaintext block masked with the ciphertext block before it, or the register |
| `CbcSpec.CbcDecryptBlock` | wolfcrypt-dpe-hw/src/hw_aes.rs:484-493 | each plaintext block is the decryption of its ciphertext block masked with the one before it, or the register |
| `CbcSpec.CbcEncryptAppend` | wolfcrypt-dpe-hw/src/hw_aes.rs:308-316 | encrypting a concatenation is encrypting the second part from the register the first part leaves |
| `CbcSpec.CbcDecryptAppend` | wolfcrypt-dpe-hw/src/hw_aes.rs:308-316 | the same for decryption |
| `CbcSpec.ChunkedIsOneShot` | wolfcrypt-dpe-hw/src/hw_aes.rs:261-320 | any sequence of calls, refused ones included, computes the one-shot result and ends with the last ciphertext block in the register |
| `CbcSpec.AnyChunkingRoundTrip` | wolfcrypt-dpe-hw/src/hw_aes.rs:261-320 | encrypting under one chunking and decrypting under any other gives the plaintext and equal registers |
| `CbcSpec.InPlaceDecryptExample` | wolfcrypt-dpe-hw/src/hw_aes.rs:311-316 | a concrete in-place decryption that leaves the wrong register |
| `CbcSpec.ChainingHoldsIff` | wolfcrypt-dpe-hw/src/hw_aes.rs:308-316 | the register is the last ciphertext block for all ciphers and inputs if and only if the call encrypts or uses distinct buffers |
| `HwHash.Device.DispatchHash` | wolfcrypt-dpe-hw/src/hw_hash.rs:115-180 | the callback takes the state step of an Update or Final, writes exactly the digest of that step and nothing else |
| `HwHash.Device.DispatchHmac` | wolfcrypt-dpe-hw/src/hw_hash.rs:199-264 | the same for HMAC-SHA-384 |
| `HwHash.StepReply` | wolfcrypt-dpe-hw/src/hw_hash.rs:115-264 | the answer is 0 exactly for served types and importable keys, a digest comes exactly from a served Final, and a refused call changes nothing |
| `HwHash.HashSlotTracksSession` | wolfcrypt-dpe-hw/src/hw_hash.rs:139-166 | after every run the hash slot holds the type of the last update and has absorbed exactly its final same-type stretch |
| `HwHash.HashFinalAnswer` | wolfcrypt-dpe-hw/src/hw_hash.rs:167-179 | after every run a Final answers with the hash of that stretch under its type, or of nothing when there was no update |
| `HwHash.UniformSessionIsOneShot` | wolfcrypt-dpe-hw/src/hw_hash.rs:115-180 | a session of one type gets the one-shot hash of all its data, whatever else happened |
| `HwHash.FinalIsOneShotIff` | wolfcrypt-dpe-hw/src/hw_hash.rs:147-160 | the answer is the one-shot hash of the session if and only if a type change discarded nothing, or what was hashed and what was fed are a collision |
| `HwHash.TypeChangeExample` | wolfcrypt-dpe-hw/src/hw_hash.rs:147-160 | a concrete run where a change of type loses data, so that the answer is not the hash of all of it |
| `HwHash.HmacSlotTracksSession` | wolfcrypt-dpe-hw/src/hw_hash.rs:220-238 | the HMAC slot is keyed by the session's first update and has absorbed all its data |
| `HwHash.HmacFinalAnswer` | wolfcrypt-dpe-hw/src/hw_hash.rs:239-263 | every HMAC Final answers with the MAC of the session under the key captured at its start, or under its own key when nothing was fed |
| `HwHash.SlotsAreIndependent` | wolfcrypt-dpe-hw/src/hw_hash.rs:87-100 | dropping all HMAC calls from a run does not change the hash slot, and conversely |
| `HwHash.CounterCountsFinals` | wolfcrypt-dpe-hw/src/hw_hash.rs:176-178 | the counter is the number of completed Finals, modulo the word size |
| `BareMetal.Strncmp` | wolfssl-src/riscv_bare_metal_helpers.c:79-83 | the sign of the result is the unsigned lexicographic order of the first n characters, for every n including 0 and the maximum |
| `BareMetal.Strncasecmp` | wolfssl-src/riscv_bare_metal_helpers.c:60-68 | the same on lower-cased text |
| `BareMetal.Strcasecmp` | wolfssl-src/riscv_bare_metal_helpers.c:27-36 | the sign of the result is the order of the lower-cased strings |
| `BareMetal.ToLowerIff` | wolfssl-src/riscv_bare_metal_helpers.c:27-36 | two characters compare equal without case exactly when they are the same or the two cases of one letter |
| `BareMetal.CaseComparisonsAgree` | wolfssl-src/riscv_bare_metal_helpers.c:27-68 | once n covers both strings the bounded order is the unbounded one |
| `BareMetal.StartsWith` | wolfssl-src/riscv_bare_metal_helpers.c:49-51 | the inner scan decides whether the needle's text is a prefix of the text there |
| `BareMetal.Strstr` | wolfssl-src/riscv_bare_metal_helpers.c:46-54 | the least position where the needle's text starts, or null if and only if there is none |
| `BareMetal.Strnstr` | wolfssl-src/riscv_bare_metal_helpers.c:13-25 | the least occurrence within len bytes, NULs included, or null if and only if there is none |
| `BareMetal.SumDoesNotWrap` | wolfssl-src/riscv_bare_metal_helpers.c:17 | the loop's `size_t` sum can wrap only after a match was found, so it never does |
| `BareMetal.Strlen` | wolfssl-src/riscv_bare_metal_helpers.c:106-110 | the length of the text before the NUL |
| `BareMetal.Memmove` | wolfssl-src/riscv_bare_metal_helpers.c:98-104 | the destination equals the old source for every overlap, and nothing else changes |
| `BareMetal.CopyText` | wolfssl-src/riscv_bare_metal_helpers.c:8 | the copying loop appends min(n, length) characters and nothing else |
| `BareMetal.Strncat` | wolfssl-src/riscv_bare_metal_helpers.c:5-11 | the destination's text becomes its old text plus the first n characters of the source, NUL-terminated; bytes outside are unchanged |
| `SshWire.GetStrOf` | ssh-key-wolfcrypt/src/public/opaque.rs:60-76 | a length-prefixed string reads back, leaving what follows |
| `SshWire.StrInjective` | ssh-key-wolfcrypt/src/sshsig.rs:391-398 | no prefixed string is a prefix of another: contents and what follows are determined |
| `SshWire.GetTextListOf` | ssh-key-wolfcrypt/src/certificate.rs:452-469 | a list of strings reads back |
| `SshWire.GetTextListValid` | ssh-key-wolfcrypt/src/certificate.rs:469 | whatever reads as a list of strings is UTF-8 and is its own encoding |
| `Utf8.IsUtf8Iff` | ssh-key-wolfcrypt/src/certificate.rs:468-469 | a string is accepted if and only if it is the UTF-8 encoding of some sequence of Unicode scalar values |
| `SshWire.PositiveRoundTrip` | ssh-key-wolfcrypt/src/signature.rs:503-526 | an mpint made from a positive magnitude gives back the same number in minimal form; zero has no positive form |
| `Algorithms.SplitIdOf` | ssh-key-wolfcrypt/src/algorithm/name.rs:92-101 | a name and a domain joined by an at-sign split back |
| `Algorithms.AlgorithmNameIff` | ssh-key-wolfcrypt/src/algorithm/name.rs:40-45 | a custom name is accepted if and only if it is a name and a domain around one at-sign, neither empty, in ASCII and of at most 64 bytes |
| `Algorithms.FromCertificateTypeIff` | ssh-key-wolfcrypt/src/algorithm/name.rs:59-74 | a certificate name gives a custom name if and only if it differs from it by the suffix before the at-sign, is in ASCII and has at most 73 bytes |
| `Algorithms.CertificateTypeRoundTrip` | ssh-key-wolfcrypt/src/algorithm/name.rs:53-74 | every custom name survives going to its certificate form and back |
| `Algorithms.FromStrOfAsStr` | ssh-key-wolfcrypt/src/algorithm.rs:196-220 | an algorithm's name parses back to it if and only if it is built in, or custom with a well-formed name that is not built in |
| `Algorithms.AsStrOfFromStr` | ssh-key-wolfcrypt/src/algorithm.rs:291-318 | every name that parses is the name of what it parses to |
| `Algorithms.BuiltInNameAsCustom` | ssh-key-wolfcrypt/src/algorithm/name.rs:40-45 | a built-in security-key name is accepted as the name of a custom algorithm |
| `Algorithms.NewCertificateOf` | ssh-key-wolfcrypt/src/algorithm.rs:166-247 | an algorithm has a certificate name unless it is custom with nothing before the at-sign; the name parses back to it if and only if it is not also a built-in certificate name |
| `Algorithms.NewCertificateNotTaken` | ssh-key-wolfcrypt/src/algorithm.rs:166-193 | what a certificate name parses to never has a colliding name |
| `Algorithms.BuiltInCertName` | ssh-key-wolfcrypt/src/algorithm.rs:217-246 | a built-in certificate name is the name of its algorithm, the suffix, and the domain of OpenSSH, which security keys end with already |
| `Algorithms.NamelessIff` | ssh-key-wolfcrypt/src/algorithm/name.rs:53-74 | what a certificate name parses to has no certificate name of its own if and only if nothing stands before the suffix |
| `Algorithms.NamelessExample` | ssh-key-wolfcrypt/src/algorithm/name.rs:53-74 | a concrete such name |
| `Algorithms.NameKeptIff` | ssh-key-wolfcrypt/src/algorithm.rs:166-247 | the certificate name of a key read under a certificate name is that name, unless it is one of the two of RSA with a hash, when it is shorter |
| `KeyFields.ScalarFieldIff` | ssh-key-wolfcrypt/src/private/ecdsa.rs:46-97 | a scalar that was read is written as it was if and only if it was in full, after a zero exactly when its first byte is large |
| `Certificates.RsaOfIff` | ssh-key-wolfcrypt/src/public/rsa.rs:27-43 | an RSA key is made if and only if both integers are positive and the modulus is shorter than 2^29 bytes |
| `KeyFields.GetFieldsOf` | ssh-key-wolfcrypt/src/public/key_data.rs:213-284 | fields that meet their checks read back one after the other, whatever follows |
| `KeyFields.GetFieldsInverse` | ssh-key-wolfcrypt/src/public/key_data.rs:213-238 | whatever reads as a list of fields meets their checks and is its own encoding |
| `Signatures.EcdsaSigSize` | ssh-key-wolfcrypt/src/signature.rs:138-154 | the loop accepts exactly the strings made of two positive mpints no wider than the field, the trailer if asked for, and nothing else |
| `Signatures.SigBlobUnique` | ssh-key-wolfcrypt/src/signature.rs:138-154 | two accepted strings with the same two integers and trailer are the same bytes |
| `Signatures.NewIff` | ssh-key-wolfcrypt/src/signature.rs:91-109 | the constructor accepts exactly 40 bytes for DSA, 64 for Ed25519, 69 for its security key, what the size check accepts for ECDSA, anything for RSA, and something for a custom algorithm |
| `Signatures.EncodedIff` | ssh-key-wolfcrypt/src/signature.rs:180-212 | a signature can be written if and only if it is not the placeholder, has room for its trailer, and its parts fit a length prefix |
| `Signatures.EncodeSucceeds` | ssh-key-wolfcrypt/src/signature.rs:180-212 | every signature the constructor makes can be written, in exactly the announced number of bytes, with and without trailer |
| `Signatures.RoundTripIff` | ssh-key-wolfcrypt/src/signature.rs:162-212 | it reads back, whatever follows, if and only if its algorithm is not a custom one with a built-in name |
| `Signatures.RoundTripFails` | ssh-key-wolfcrypt/src/signature.rs:162-212 | a concrete signature that does not read back |
| `Signatures.DecodeInverse` | ssh-key-wolfcrypt/src/signature.rs:162-178 | whatever reads is acceptable to the constructor, canonical, and writes back the bytes consumed |
| `Signatures.SignedBlobPassesCheckIff` | ssh-key-wolfcrypt/src/signature.rs:503-510 | the blob made from DER, which bypasses the constructor, passes its check if and only if both integers are positive and fit the field |
| `Signatures.IntegersSurvive` | ssh-key-wolfcrypt/src/signature.rs:503-526 | going to SSH form and back hands the DER encoder the same two integers |
| `Signatures.DerRoundTrip` | ssh-key-wolfcrypt/src/signature.rs:503-526 | with a DER codec that agrees with itself, DER to SSH to DER preserves both integers |
| `CertOptions.Decode` | ssh-key-wolfcrypt/src/certificate/options_map.rs:36-68 | the decoding loop computes the recursive decoder, order check included |
| `CertOptions.LessIff` | ssh-key-wolfcrypt/src/certificate/options_map.rs:53-60 | a name is before another if and only if it is a proper prefix of it or smaller at the first difference |
| `CertOptions.LessIsTotal` | ssh-key-wolfcrypt/src/certificate/options_map.rs:53-60 | of two different names exactly one is before the other |
| `CertOptions.SortedIff` | ssh-key-wolfcrypt/src/certificate/options_map.rs:53-60 | neighbours are in order if and only if any two entries are, so that no name appears twice |
| `CertOptions.GetOf` | ssh-key-wolfcrypt/src/certificate/options_map.rs:36-103 | sorted options read back as they were written |
| `CertOptions.GetValid` | ssh-key-wolfcrypt/src/certificate/options_map.rs:53-60 | whatever reads is strictly sorted by name and UTF-8 |
| `CertOptions.EncLength` | ssh-key-wolfcrypt/src/certificate/options_map.rs:70-84 | options take as many bytes as announced |
| `CertOptions.Reencoded` | ssh-key-wolfcrypt/src/certificate/options_map.rs:36-103 | options that were read write back the bytes read if and only if none wrapped empty data, and fewer otherwise |
| `CertificateProofs.CertIsTbsThenSignature` | ssh-key-wolfcrypt/src/certificate.rs:512-515 | an encoded certificate is its to-be-signed bytes followed by the prefixed signature |
| `CertificateProofs.CertLength` | ssh-key-wolfcrypt/src/certificate.rs:491-510 | a certificate takes exactly the announced number of bytes, nested certificates included |
| `CertificateProofs.KeyLength` | ssh-key-wolfcrypt/src/public/key_data.rs:246-314 | a public key takes exactly the announced number of bytes |
| `CertificateProofs.KeyRoundTrip` | ssh-key-wolfcrypt/src/public/key_data.rs:286-326 | a canonical public key reads back without comments, whatever follows |
| `CertificateProofs.CertRoundTrip` | ssh-key-wolfcrypt/src/certificate.rs:482-516 | a canonical certificate reads back without its comments, whatever follows |
| `CertificateResults.RoundTripIff` | ssh-key-wolfcrypt/src/certificate.rs:461-516 | a certificate reads back without its comments if and only if it is canonical |
| `CertificateResults.KeyRoundTripIff` | ssh-key-wolfcrypt/src/public/key_data.rs:286-326 | the same for a key |
| `CertificateResults.DecodedIff` | ssh-key-wolfcrypt/src/certificate.rs:461-489 | a certificate that was read lacks a name if and only if the name read has nothing before its suffix; it can be written if and only if no certificate in it lacks one, and is canonical if and only if none in its signing key does |
| `CertificateResults.ReencodedIff` | ssh-key-wolfcrypt/src/certificate.rs:461-516 | writing a certificate that was read gives the bytes read if and only if the name was none of RSA with a hash and no option wrapped empty data, in it and its signing key; otherwise fewer |
| `CertificateResults.NamelessAccepted` | ssh-key-wolfcrypt/src/certificate.rs:481-516 | under every name with nothing before the suffix, every certificate body for a key of that algorithm is accepted, and the result cannot be written |
| `CertificateResults.NamelessCertificate` | ssh-key-wolfcrypt/src/certificate.rs:481-516 | a concrete such certificate |
| `CertificateResults.RsaNameLost` | ssh-key-wolfcrypt/src/public/key_data.rs:62-79 | every RSA certificate is accepted under either name with a hash and comes out under the name without one |
| `CertificateResults.OpaqueEd25519` | ssh-key-wolfcrypt/src/public/opaque.rs:20-55 | an opaque key that claims to be an Ed25519 one reads back as an Ed25519 key |
| `CertificateResults.IdentityPointIsLost` | ssh-key-wolfcrypt/src/public/ecdsa.rs:46-66 | an ECDSA key at the identity can be written but does not read back |
| `CertificateResults.DecodedKeyIff` | ssh-key-wolfcrypt/src/public/key_data.rs:286-299 | a key that was read can be written, and is canonical, if and only if no certificate in it lacks a name; writing it gives the bytes read if and only if they are verbatim, and fewer otherwise |
| `CertificateResults.TbsSameIff` | ssh-key-wolfcrypt/src/certificate.rs:445-459 | with the to-be-signed bytes of a certificate whose signed part is canonical, another certificate agrees on every signed field if and only if its signed part is canonical; nothing is asked of the signatures |
| `CertificateResults.TbsCollision` | ssh-key-wolfcrypt/src/certificate.rs:445-459 | every Ed25519 certificate has look-alikes for an opaque key, under a custom name or the built-in one, with the same to-be-signed bytes |
| `CertificateResults.RoundTripConfuses` | ssh-key-wolfcrypt/src/certificate.rs:461-516 | those look-alikes read back as the Ed25519 certificate |
| `SshSigs.EncodedLength` | ssh-key-wolfcrypt/src/sshsig.rs:316-340 | an `sshsig` signature takes exactly the announced number of bytes |
| `SshSigs.RoundTripIff` | ssh-key-wolfcrypt/src/sshsig.rs:277-340 | it reads back if and only if its key and signature algorithm are canonical |
| `SshSigs.DecodedIff` | ssh-key-wolfcrypt/src/sshsig.rs:277-313 | what is read is valid, and is canonical if and only if no certificate in its key lacks a name |
| `SshSigs.SignedDataInjective` | ssh-key-wolfcrypt/src/sshsig.rs:379-399 | the signed bytes determine namespace, reserved data, hash algorithm and hash |
| `SshVerify.SignedDataForPrehashIff` | ssh-key-wolfcrypt/src/sshsig.rs:173-194 | the data to sign is made if and only if the namespace is not empty and fits a length prefix and the digest has the size of its hash |
| `SshSigs.SignedDataReads` | ssh-key-wolfcrypt/src/sshsig.rs:379-399 | the signed bytes are the preamble, then namespace, reserved data, hash name and hash as strings, in this order, and nothing else |
| `SshSigs.SignedDataIsNoCertificate` | ssh-key-wolfcrypt/src/sshsig.rs:52-56 | the preamble keeps signed messages apart from to-be-signed certificates |
| `KeySigning.SplitSk` | ssh-key-wolfcrypt/src/signature.rs:425-435 | a security key's signature splits into the rest and its last five bytes, or fails when shorter |
| `KeySigning.SkSignedDataInjective` | ssh-key-wolfcrypt/src/signature.rs:413-422 | what a security key signs determines application digest, trailer and message digest |
| `KeySigning.SkSignedDataLayout` | ssh-key-wolfcrypt/src/signature.rs:413-422 | what a security key signs is the digest of the application, the trailer, and the digest of the message, in 69 bytes |
| `KeySigning.EcdsaDigestIsLongest` | ssh-key-wolfcrypt/src/signature.rs:446-472 | the digest of a curve is that of the longest of the three hashes that fits the field |
| `Pkcs1.PrefixIsDer` | ssh-key-wolfcrypt/src/signature.rs:786-838 | the three fixed prefixes followed by a digest are the DER of hash identifier and digest |
| `KeySigning.DigestInfoIsDer` | ssh-key-wolfcrypt/src/signature.rs:786-838 | so what RSA signs is that DER for the digest of the message |
| `KeySigning.VerifyKeyIff` | ssh-key-wolfcrypt/src/signature.rs:290-307 | for every kind of key, verification succeeds if and only if the library accepts; DSA, opaque and certificate keys accept nothing |
| `KeySigning.Ed25519AcceptsIff` | ssh-key-wolfcrypt/src/signature.rs:375-385 | an Ed25519 key accepts if and only if the label is its own and the library accepts |
| `KeySigning.RsaAcceptsIff` | ssh-key-wolfcrypt/src/signature.rs:848-885 | an RSA key accepts if and only if the label is one of RSA and the library recovers the framed digest of the message |
| `KeySigning.WireTrailerIsVerified` | ssh-key-wolfcrypt/src/signature.rs:162-178 | the five bytes a security key verifies with stood behind the prefixed data under a security key's label, and at the end of that data under any other |
| `KeySigning.EcdsaAcceptsIff` | ssh-key-wolfcrypt/src/signature.rs:517-695 | a valid ECDSA signature is accepted if and only if it is two integers whose DER the library accepts for the digest of its curve |
| `KeySigning.EcdsaVerifyIff` | ssh-key-wolfcrypt/src/signature.rs:517-625 | ECDSA data is accepted if and only if it starts with two integers that the library accepts for the digest; what follows is not looked at |
| `KeySigning.SkEcdsaAcceptsIff` | ssh-key-wolfcrypt/src/signature.rs:397-435 | an ECDSA security key accepts a signature of any label if and only if it starts with two integers and ends in a trailer, and the library accepts the integers for the digest of application, trailer and message |
| `KeySigning.OwnLabelIff` | ssh-key-wolfcrypt/src/signature.rs:92-154 | such data passes the constructor under the key's own label if and only if nothing stands between and both integers are positive and fit the field |
| `KeySigning.OwnLabelAcceptsIff` | ssh-key-wolfcrypt/src/signature.rs:397-435 | so under that label a valid signature is accepted if and only if it is two accepted integers and a trailer |
| `KeySigning.SkEd25519AcceptsIff` | ssh-key-wolfcrypt/src/signature.rs:388-395 | an Ed25519 security key accepts a signature of any label if and only if it ends in a trailer and the library accepts the rest |
| `KeySigning.RelabelledIsAccepted` | ssh-key-wolfcrypt/src/signature.rs:388-410 | whatever a security key accepts it accepts labelled as RSA; that signature is valid, reads back, and has its trailer inside the prefixed data |
| `KeySigning.StrayByteAccepted` | ssh-key-wolfcrypt/src/signature.rs:397-435 | a concrete one with a stray byte before the trailer, which could not bear the key's own label |
| `KeySigning.EcdsaLabelRefused` | ssh-key-wolfcrypt/src/signature.rs:397-435 | labelled as plain ECDSA, no valid signature is accepted by an ECDSA security key |
| `KeySigning.RsaAcceptsOneDigest` | ssh-key-wolfcrypt/src/signature.rs:786-885 | an RSA key accepting the same signature bytes for two messages does so under one hash algorithm and for one digest |
| `KeySigning.EcdsaSigned` | ssh-key-wolfcrypt/src/signature.rs:587-695 | what an ECDSA scalar signs passes the constructor's check and verifies under its point: both integers survive the way from DER to SSH and back |
| `KeySigning.OtherCurveAccepted` | ssh-key-wolfcrypt/src/signature.rs:604-695 | a scalar signing the digest of a larger curve makes a valid signature under that curve's label, and its own key accepts it |
| `KeySigning.OtherCurveExample` | ssh-key-wolfcrypt/src/signature.rs:684-695 | a P-256 key accepting a signature labelled as one of P-384 |
| `KeySigning.RsaSigned` | ssh-key-wolfcrypt/src/signature.rs:708-885 | what a matching RSA pair signs verifies under its public key |
| `KeySigning.SignedIsAccepted` | ssh-key-wolfcrypt/src/signature.rs:269-307 | whatever a matching pair signs is a valid signature of its algorithm (of RSA with SHA-512) that its public key accepts |
| `SshVerify.VerifyIff` | ssh-key-wolfcrypt/src/public.rs:236-281 | a message signature verifies if and only if key and namespace are its own, lengths fit, and the library accepts it over the signed data of the message digest |
| `SshVerify.SignedComesBackAndVerifies` | ssh-key-wolfcrypt/src/sshsig.rs:105-340 | a message signed with a matching ECDSA, Ed25519 or RSA pair verifies for the same key, namespace and message; the signature can be written if and only if its key can, and then reads back unchanged |
| `SshVerify.AcceptedWasRequestedIff` | ssh-key-wolfcrypt/src/public.rs:236-281 | an accepted signature was accepted over one string, and that string is among those requested if and only if this namespace, hash algorithm and digest were requested and there is no reserved data |
| `SshVerify.ValidateIff` | ssh-key-wolfcrypt/src/certificate.rs:393-441 | a certificate validates if and only if its signed part can be written, the library accepts the signature over it, the SHA-256 fingerprint of the signing key is trusted, and the time is at or after the start and before the end |
| `SshVerify.ValidatedWasIssuedIff` | ssh-key-wolfcrypt/src/certificate.rs:393-441 | a validated certificate is signed by a trusted key over its signed part and in its validity period; an issued certificate has the same signed part, the validated one being canonical, if and only if it is the same up to signature and comments |
| `SshVerify.ReceivedWasIssuedIff` | ssh-key-wolfcrypt/src/certificate.rs:393-489 | a certificate that was read and validates has the signed bytes of an issued one if and only if it is the same up to signature and comments; no condition is left |
| `SshVerify.MessagesAreNoCertificates` | ssh-key-wolfcrypt/src/certificate.rs:393-441 | a key accepting one signature for a message and on a certificate accepts it over two different strings |
| `Kdfs.PaddingUnique` | ssh-key-wolfcrypt/src/private.rs:680-681 | below a block, the padding aligns the total if and only if it is the one the encoder uses |
| `Kdfs.RoundTrip` | ssh-key-wolfcrypt/src/kdf.rs:129-183 | key derivation settings read back, whatever follows |
| `Kdfs.Inverse` | ssh-key-wolfcrypt/src/kdf.rs:132-154 | whatever reads as settings is its own encoding |
| `Kdfs.EncLength` | ssh-key-wolfcrypt/src/kdf.rs:158-166 | settings take exactly the announced number of bytes |
| `Kdfs.KeyAndIv` | ssh-key-wolfcrypt/src/kdf.rs:87-110 | derivation succeeds if and only if there is a cipher, a KDF and bcrypt succeeds; key and IV have the sizes of the cipher and are consecutive parts of the derived bytes, but with ChaCha20 the IV is zeros |
| `Kdfs.DeriveKeyAndIv` | ssh-key-wolfcrypt/src/kdf.rs:87-110 | the buffer filled, split and overwritten holds that key and IV |
| `Keypairs.ComputeCheckint` | ssh-key-wolfcrypt/src/private/keypair.rs:214-240 | the loop computes the exclusive or of all whole big-endian words of the private bytes |
| `Keypairs.CheckintBit` | ssh-key-wolfcrypt/src/private/keypair.rs:233-239 | each bit of the default checkint is set if and only if an odd number of whole big-endian words has it |
| `KeypairProofs.PairLength` | ssh-key-wolfcrypt/src/private/keypair.rs:320-348 | a key pair takes exactly the announced number of bytes |
| `KeypairProofs.PrivateBytesAreWritten` | ssh-key-wolfcrypt/src/private/keypair.rs:214-233 | the default checkint is made of bytes on the wire: the first secret field or the key handle, without the public key after a seed and a leading zero before a scalar |
| `KeypairProofs.GetPairOf` | ssh-key-wolfcrypt/src/private/keypair.rs:311-375 | a canonical key pair reads back, whatever follows |
| `KeypairProofs.PairRead` | ssh-key-wolfcrypt/src/private/keypair.rs:243-318 | whatever reads as a pair is valid and canonical (an Ed25519 seed belongs to its public key), and writes back the bytes read if and only if these name no RSA hash and hold an ECDSA scalar in full |
| `PrivateKeyProofs.SectionLength` | ssh-key-wolfcrypt/src/private.rs:674-723 | the inner section is as long as announced and block-aligned, for every cipher |
| `PrivateKeyProofs.GetSectionOf` | ssh-key-wolfcrypt/src/private.rs:610-670 | a section with any aligned padding up to the allowed length reads back as pair, comment and checkint |
| `PrivateKeyProofs.AcceptedSection` | ssh-key-wolfcrypt/src/private.rs:610-670 | every accepted section is aligned and is one checkint twice, a pair with the expected public half, its comment, and the bytes 1 to n |
| `PrivateKeyProofs.SectionRewrittenIff` | ssh-key-wolfcrypt/src/private.rs:610-695 | writing an accepted section again gives the same bytes if and only if its pair is verbatim and its padding is below the block size |
| `PrivateKeyProofs.EncodedLength` | ssh-key-wolfcrypt/src/private.rs:835-853 | a private key takes exactly the announced number of bytes, encrypted or not |
| `PrivateKeyProofs.RoundTripIff` | ssh-key-wolfcrypt/src/private.rs:746-883 | a private key reads back (checkint filled in, or comment dropped when encrypted) if and only if it is canonical |
| `PrivateKeyProofs.RoundTripFails` | ssh-key-wolfcrypt/src/private.rs:746-883 | valid keys that do not read back: opaque pairs of any built-in algorithm or under a built-in name |
| `PrivateKeyProofs.MismatchedSeedFails` | ssh-key-wolfcrypt/src/private/ed25519.rs:154-221 | every Ed25519 key whose public half is not that of its seed can be written but does not read back |
| `PrivateKeyProofs.DecodedIff` | ssh-key-wolfcrypt/src/private.rs:746-833 | what is read is valid, and is canonical if and only if no certificate in its public key lacks a name |
| `PrivateKeyProofs.RewrittenIff` | ssh-key-wolfcrypt/src/private.rs:746-882 | writing an accepted unencrypted container again gives the same bytes if and only if public key and pair are verbatim and the padding, never above 16, is below 8 |
| `PrivateKeyProofs.OverpaddedAccepted` | ssh-key-wolfcrypt/src/private.rs:640-695 | every unencrypted key is accepted with eight more bytes of padding, and then written without them |
| `PrivateKeyProofs.OverpaddedExample` | ssh-key-wolfcrypt/src/private.rs:640-695 | a concrete such container |
| `PrivateKeyProofs.EncryptedRewrittenIff` | ssh-key-wolfcrypt/src/private.rs:773-882 | writing an accepted encrypted container again gives the same bytes if and only if its public key is verbatim |
| `KeyEncryptionProofs.EncryptMakesValid` | ssh-key-wolfcrypt/src/private.rs:464-491 | encryption makes a valid encrypted key of whole blocks, with the public key but without the comment |
| `KeyEncryptionProofs.EncryptHands` | ssh-key-wolfcrypt/src/private.rs:464-491 | what is handed to the cipher: the padded section, with the first bytes of the password hash as key and the next ones as IV, or zeros with ChaCha20 |
| `KeyEncryptionProofs.DecryptHands` | ssh-key-wolfcrypt/src/private.rs:405-419 | the same key and IV open the ciphertext, and what comes out is read as a section |
| `KeyEncryptionProofs.DecryptUndoesEncrypt` | ssh-key-wolfcrypt/src/private.rs:405-491 | decrypting with the same password gives the key back, comment included |
| `KeyEncryptionProofs.DecryptYields` | ssh-key-wolfcrypt/src/private.rs:405-419 | whatever decryption yields is a valid unencrypted key whose pair matches the public key stored in the clear |
| `KeyEncryptionProofs.StoredKeyComesBackIff` | ssh-key-wolfcrypt/src/private.rs:405-491 | encrypt, write, read, decrypt gives the key back, comment included, if and only if it is canonical |
| `SshReader.Reader.ReadSection` | ssh-key-wolfcrypt/src/private/ed25519.rs:207-208 | a nested reader over exactly the next prefixed section |
| `Decoders.DecodeSignature` | ssh-key-wolfcrypt/src/signature.rs:162-178 | stepping the reader and pushing the trailer computes the signature decoder |
| `Decoders.DecodeScalar` | ssh-key-wolfcrypt/src/private/ecdsa.rs:46-79 | reading a scalar drops its leading zero or fills in the bytes it lacks, and fails exactly as the field check does |
| `Decoders.DecodeField` | ssh-key-wolfcrypt/src/public/ecdsa.rs:100-115 | stepping the reader computes the field decoder of every other kind |
| `Decoders.DecodeKey` | ssh-key-wolfcrypt/src/public/key_data.rs:286-299 | stepping the reader computes the key decoder, for all kinds of keys, nested certificates included |
| `Decoders.DecodeCertAs` | ssh-key-wolfcrypt/src/certificate.rs:462-479 | the same for a certificate of a given algorithm |
| `Decoders.DecodeCert` | ssh-key-wolfcrypt/src/certificate.rs:482-489 | the same for a certificate |
| `Decoders.DecodeSshSig` | ssh-key-wolfcrypt/src/sshsig.rs:280-313 | the same for an `sshsig` signature, error order included |
| `Decoders.DecodeKdf` | ssh-key-wolfcrypt/src/kdf.rs:132-154 | the same for key derivation settings |
| `Decoders.DecodePair` | ssh-key-wolfcrypt/src/private/keypair.rs:243-318 | the same for a key pair |
| `Decoders.DecodeSection` | ssh-key-wolfcrypt/src/private.rs:610-670 | the same for the padded section, which it consumes to the end |
| `Decoders.DecodePrivateKey` | ssh-key-wolfcrypt/src/private.rs:749-832 | the same for a private key |
| `Encoders.EncodeSignature` | ssh-key-wolfcrypt/src/signature.rs:189-211 | the writer gains exactly the signature's bytes, failing exactly when encoding is impossible |
| `Encoders.EncodeOptions` | ssh-key-wolfcrypt/src/certificate/options_map.rs:86-102 | the same for options behind their announced length |
| `Encoders.EncodePlainKey` | ssh-key-wolfcrypt/src/public/key_data.rs:265-284 | the same for the fields of every kind of key |
| `Encoders.EncodeKey` | ssh-key-wolfcrypt/src/public/key_data.rs:316-325 | the same for a public key |
| `Encoders.EncodeTbs` | ssh-key-wolfcrypt/src/certificate.rs:445-459 | the same for the to-be-signed part, failing also where the code panics for want of a name |
| `Encoders.EncodeCert` | ssh-key-wolfcrypt/src/certificate.rs:512-515 | the same for a certificate |
| `Encoders.EncodeSshSig` | ssh-key-wolfcrypt/src/sshsig.rs:330-339 | the same for an `sshsig` signature |
| `Encoders.EncodeSignedData` | ssh-key-wolfcrypt/src/sshsig.rs:371-399 | the signed-data bytes, or an error exactly when a length does not fit |
| `Encoders.EncodeKdf` | ssh-key-wolfcrypt/src/kdf.rs:168-182 | the writer gains exactly the settings' bytes |
| `PrivateEncoders.EncodePair` | ssh-key-wolfcrypt/src/private/keypair.rs:350-374 | the same for a key pair |
| `PrivateEncoders.EncodeScalar` | ssh-key-wolfcrypt/src/private/ecdsa.rs:81-97 | the same for a scalar, its zero included |
| `PrivateEncoders.EncodeSection` | ssh-key-wolfcrypt/src/private.rs:674-695 | the same for the padded section |
| `PrivateEncoders.EncodePrivateKey` | ssh-key-wolfcrypt/src/private.rs:855-882 | the same for a private key |
| `Operations.SignPrehash` | ssh-key-wolfcrypt/src/sshsig.rs:134-156 | signing as it runs computes the signing function, errors included |
| `Operations.VerifyPrehash` | ssh-key-wolfcrypt/src/public.rs:266-281 | verifying as it runs computes the verification function, errors included |
| `Operations.VerifySignature` | ssh-key-wolfcrypt/src/certificate.rs:435-441 | checking a certificate's signature over freshly written bytes computes the specified check |
| `Operations.ValidateAt` | ssh-key-wolfcrypt/src/certificate.rs:393-418 | validation computes the specified check of signature, fingerprint and period |
| `Operations.EncryptWith` | ssh-key-wolfcrypt/src/private.rs:464-491 | writing the section into a buffer and encrypting it computes the encryption function |
| `Operations.Decrypt` | ssh-key-wolfcrypt/src/private.rs:405-419 | decrypting a buffer and reading it computes the decryption function |
| `ConfigOpts.ConfigOptsIter.TryNext` | ssh-key-wolfcrypt/src/authorized_keys.rs:275-318 | one step yields the text up to the first comma outside quotes, or fails exactly when a byte before it is not allowed |
| `ConfigOpts.ConfigOptsIter.Validate` | ssh-key-wolfcrypt/src/authorized_keys.rs:269-272 | draining succeeds if and only if every byte is allowed |
| `ConfigOpts.AllowedIff` | ssh-key-wolfcrypt/src/authorized_keys.rs:275-318 | the allowed bytes are exactly the printable ASCII characters but for the backquote |
| `ConfigOpts.ConfigOptsIter.Next` | ssh-key-wolfcrypt/src/authorized_keys.rs:324-327 | on a validated string iteration never fails and what remains strictly shrinks |
| `ConfigOpts.CutsAfterCut` | ssh-key-wolfcrypt/src/authorized_keys.rs:280-290 | restarting the quote flag after a cut moves no later cut |
| `ConfigOpts.IterateIsSplit` | ssh-key-wolfcrypt/src/authorized_keys.rs:262-328 | the items are the pieces between commas preceded by an even number of quotes in the whole string, less one final empty piece; iteration fails if and only if a byte is not allowed |
| `ConfigOpts.TrailingCommaIsLost` | ssh-key-wolfcrypt/src/authorized_keys.rs:262-328 | a comma after a string with closed quotes adds an empty piece, and the iterator yields the same items as without it |
| `ConfigOpts.TrailingCommaExample` | ssh-key-wolfcrypt/src/authorized_keys.rs:262-328 | one option and a comma |
| `ConfigOpts.NothingDroppedIff` | ssh-key-wolfcrypt/src/authorized_keys.rs:262-328 | every piece is yielded if and only if the string is neither empty nor ends in a comma outside quotes |
| `ConfigOpts.JoinPieces` | ssh-key-wolfcrypt/src/authorized_keys.rs:285-290 | joining the pieces with commas gives the string back |
| `Dpe.UncompressedPointRoundTrip` | wolfcrypt-dpe/src/ecdsa.rs:84-129 | parsing gives a point if and only if the bytes are that point's encoding |
| `Dpe.DeriveKeyPairIff` | wolfcrypt-dpe/src/ecdsa.rs:193-226 | a key pair is derived if and only if HKDF, salted with the info, extracts the private key from the CDI under the label and the library's public point of it is the public key |
| `Dpe.SignWithKeyIff` | wolfcrypt-dpe/src/ecdsa.rs:132-253 | signing gives r and s if and only if the pair imports and the library signs with it as r followed by s, each as wide as the field |
| `Dpe.WolfCryptDpe.DeriveExportedCdi` | wolfcrypt-dpe/src/lib.rs:216-238 | exporting adds one slot or fails in the stated order and changes nothing |
| `Dpe.WolfCryptDpe.DeriveKeyPairExported` | wolfcrypt-dpe/src/lib.rs:251-270 | derives from the CDI of the last slot with the handle, or reports an invalid handle |
| `Dpe.WolfCryptDpe.SetAliasKey` | wolfcrypt-dpe/src/lib.rs:140-149 | a failed import leaves both alias fields as they were |
| `Dpe.WolfCryptDpe.SignWithAlias` | wolfcrypt-dpe/src/lib.rs:272-278 | signs with the cached key or reports that none is set |
| `Dpe.SlotsInvariant` | wolfcrypt-dpe/src/lib.rs:216-238 | after every run there are at most N slots and no CDI is stored twice |
| `Dpe.SlotsOnlyGrow` | wolfcrypt-dpe/src/lib.rs:216-238 | slots are only ever appended |
| `Dpe.LookupIff` | wolfcrypt-dpe/src/lib.rs:251-270 | a handle finds its slot if and only if no later slot carries the same handle |
| `Dpe.IssuedHandleKeepsItsCdi` | wolfcrypt-dpe/src/lib.rs:216-270 | an issued handle keeps naming its CDI through every later run if and only if no later export drew the same handle |
| `Dpe.SingleSlotHandleKeepsItsCdi` | wolfcrypt-dpe/src/lib.rs:216-270 | with the single slot the code is built with it always does |
| `Dpe.IssuedHandleKeepsItsKeyPair` | wolfcrypt-dpe/src/lib.rs:216-270 | after every later run that draws no such handle again, the handle yields exactly the key pair that HKDF and the public point give for the CDI extracted from its own measurement and info |
| `Dpe.AliasAgreesWithKey` | wolfcrypt-dpe/src/ecdsa.rs:36-71 | after every run signing with the alias is signing with the last successfully set pair imported afresh |
| `Dpe.AliasSignsIff` | wolfcrypt-dpe/src/ecdsa.rs:36-71 | after every run the alias signs as r and s if and only if the library does so with the last pair it imported |
| `Cmac.Key.New` | wolfcrypt-ring-compat/src/cmac.rs:256-283 | a key exists if and only if the length is right and the library accepts it, and its context is fresh |
| `Cmac.Key.Clone` | wolfcrypt-ring-compat/src/cmac.rs:209-215 | cloning cannot fail and gives a fresh context whatever the original absorbed |
| `Cmac.Context.constructor` | wolfcrypt-ring-compat/src/cmac.rs:341-346 | a new context has its own fresh key and has absorbed nothing |
| `Cmac.Context.Update` | wolfcrypt-ring-compat/src/cmac.rs:353-363 | a successful update extends both the library context and the accumulated data, a failed one neither |
| `Cmac.Context.Clone` | wolfcrypt-ring-compat/src/cmac.rs:303-322 | the clone has absorbed the same data in a context of its own; the ignored replay cannot fail |
| `Cmac.Context.Sign` | wolfcrypt-ring-compat/src/cmac.rs:384-395 | the tag is what the library finishes with after absorbing the accumulated data in one step, if that has 16 bytes, and a failure otherwise |
| `Cmac.Context.Verify` | wolfcrypt-ring-compat/src/cmac.rs:413-421 | succeeds if and only if the tag is that one |
| `Cmac.SignOnce` | wolfcrypt-ring-compat/src/cmac.rs:470-474 | the tag is what the library gives for the data from a fresh context, if it has 16 bytes |
| `Cmac.SignToBuffer` | wolfcrypt-ring-compat/src/cmac.rs:496-509 | writes exactly that tag into a large enough buffer |
| `Cmac.VerifyOnce` | wolfcrypt-ring-compat/src/cmac.rs:524-532 | succeeds if and only if the tag is what the library gives for the data |
| `Cmac.TreeInvariant` | wolfcrypt-ring-compat/src/cmac.rs:303-363 | in every tree of updates and clones each context has accumulated and absorbed exactly its own message |
| `Cmac.TreeSignsLikeOneShot` | wolfcrypt-ring-compat/src/cmac.rs:384-509 | so the library finishes any context of any tree as it finishes the message of that context in one step |

## Left out

- wolfCrypt, RustCrypto, bcrypt and hash internals: foreign code, kept as functions with the laws used.
- The encoding, SEC 1 and cipher libraries: not part of the repository; only the facts named above are taken from them. The text of the cipher names is left open.
- HwAes.Dispatcher.DispatchGcmEncrypt: input and output are one buffer or disjoint ones; partly overlapping buffers are not modelled, nor an output that overlaps the tag or the associated data.
- HwAes.Dispatcher.DispatchGcmDecrypt: the same restriction on buffers.
- HwAes.Dispatcher.DispatchCbc: the same restriction on buffers; the dispatch counters are taken as 64-bit words, as on a 64-bit host.
- Signatures.EncodeSucceeds: takes signature data to be shorter than 2^32 bytes, not counting a trailer, since longer data has no length prefix.
- Cmac.Context.Update: takes a failed update of the C library to leave its context as it was, since the code goes on using it.
- Cmac.SignToBuffer: promises an untouched buffer on failure only when the buffer is too small, since the C library may write before its own length check.
- BareMetal.Strncat: demands that the characters to copy are not overwritten while copying, as C does.
- BareMetal.Strnstr: needs all len bytes readable, since the code does not stop at a NUL.
- Encoders.EncodeTbs: does not tell a panic for want of a certificate name from a failure.
- Encoders.EncodeCert: the same.
- Encoders.EncodeKey: the same.
- Encoders.EncodeSshSig: the same.
- PrivateEncoders.EncodePrivateKey: the same.
- Operations.VerifySignature: the same.
- Operations.ValidateAt: the same.
- CertificateResults.RoundTripIff: comments of certificates are never written, so they are compared without them.
- CertificateResults.ReencodedIff: is about values that can be written at all, with a name for every certificate in them; `DecodedIff` says when that is so.
- PrivateKeyProofs.EncryptedRewrittenIff: the same.
- KeySigning.SignedIsAccepted: needs the public half of a pair to be that of its secret; nothing checks this of ECDSA and RSA pairs. The distribution of signatures and their unforgeability are not modelled.
- Kdfs.DeriveKeyAndIv: generating a salt and the default number of rounds are not modelled; both are arguments.
- Mutex locking and interrupts around the hash slots: the callbacks are taken one at a time, as the code's own comments say the firmware does.
- Verifying and signing by an incremental digest, PEM and Base64 armour, PuTTY files, known_hosts, fingerprint text, serde, file access and random key generation: easy or dominated by foreign code.
- `hw_pk.rs`, key agreement, AEAD and digest wrappers of the ring-compatible crate: guard checks around foreign calls.
- `wolfssl_strchr`, `strcmp`, `memset`, `memcpy`: simple loops next to the harder ones modelled.
- Constant-time behaviour, zeroization and other side-channel claims: not functional properties.
