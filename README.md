# Titlekey unwrapping in the secure monitor

This project models the titlekey code of the Exosphère secure monitor
(`exosphere/titlekey.c`) and proves properties of the model. The code
recovers a per-title AES key from a vendor-issued wrapped blob in two ways.

- **RSA-wrapped titlekeys.** `tkey_rsa_unwrap` takes the 256-byte result of
  an RSA decryption: `0x00 ‖ maskedSalt[32] ‖ maskedDB[223]`. It unmasks the
  message in place with MGF1 over SHA-256 (`calculate_mgf1_and_xor`, from
  appendix B.2.1 of RFC 8017). The masking follows EME-OAEP (section 7.1 of
  RFC 8017). It then checks that the DB is
  `expected_prefix[32] ‖ 00 … 00 ‖ 01 ‖ wrapped_titlekey` and copies the
  wrapped titlekey out. It returns the offset of the key inside the 191
  bytes after the prefix, or 0 on any rejection.
- **AES-wrapped titlekeys.** `tkey_aes_unwrap` derives the titlekek into
  keyslot 9 (`KEYSLOT_SWITCH_TEMPKEY`). The titlekek is a fixed constant
  decrypted under the master key of the configured revision. The routine
  then decrypts the 16-byte wrapped key under the titlekek.

The configuration lives in two globals. One is the 32-byte expected DB
prefix. The other is the master-key revision, which starts at
`MASTERKEY_REVISION_MAX`. `tkey_set_master_key_rev` is meant to store it, but as
written it only checks the revision and stores nothing (see "## Findings").

## Modules

- `Bytes` (`bytes.dfy`): covers bytes, byte-wise XOR, big-endian counters and
  `Outcome`. `Outcome` is either `Panic` (the C `panic()`, which never
  returns) or `Return(value)`.
- `SecurityEngine` (`security_engine.dfy`): the hardware security engine as a
  class `Engine`. It holds 16 AES keyslots and three uninterpreted
  primitives fixed at creation: SHA-256, AES-128 block decryption and
  `mkey_get_keyslot`.
- `Mgf1` (`mgf1.dfy`): the MGF1 mask stream, stated two ways: byte-indexed,
  and block-by-block as RFC 8017 builds it. Also `CalculateMgf1AndXor`, the
  in-place loop over an array.
- `WrappedMessage` (`wrapped_message.dfy`): the wrapped message as values. It
  defines the unmasking, the padding scan, what `tkey_rsa_unwrap` returns,
  and the encoding done by the wrapping side. It also holds the acceptance,
  rejection and round-trip lemmas.
- `Titlekey` (`titlekey.dfy`): the class `Context`, holding the two globals
  and `MASTERKEY_REVISION_MAX`, with the setters and the two unwrap
  routines as methods over arrays.

Each imperative method is proved against a specification function:
`CalculateMgf1AndXor` against `Mask`, and `RsaUnwrap` against
`UnwrapResult`, `Unmask` and `Payload`. The lemmas in `WrappedMessage`
then prove what those functions promise.

## Model

| member | source | states |
|---|---|---|
| Bytes.XorCancel | exosphere/titlekey.c:56 | XORing the same byte twice restores the original byte |
| Bytes.XorBitsCancel | exosphere/titlekey.c:56 | the bitwise XOR of the low n bits is self-inverse on n-bit values |
| Bytes.XorAtTwice | exosphere/titlekey.c:55-58 | XORing one mask into the same sub-range twice restores the whole buffer |
| Bytes.Be32 | exosphere/titlekey.c:46-49 | the four counter bytes are the big-endian digits of the 32-bit counter: four bytes whose base-256 value is the counter |
| SecurityEngine.Engine.DecryptDataIntoKeyslot | exosphere/titlekey.c:151 | the destination keyslot gets the block decrypted under the source keyslot's key, and no other keyslot changes |
| SecurityEngine.Engine.AesEcbDecryptBlock | exosphere/titlekey.c:154 | the 16-byte destination holds the AES-ECB decryption of the source under the keyslot's key |
| Mgf1.Blocks | exosphere/titlekey.c:40-61 | the block-wise mask stream has exactly the requested length |
| Mgf1.BlocksAt | exosphere/titlekey.c:40-61 | byte k of the stream from block r on is byte k mod 32 of block r + k div 32 |
| Mgf1.MaskIsBlocks | exosphere/titlekey.c:40-61 | the byte-indexed mask equals H(seed ‖ BE32(0)) ‖ H(seed ‖ BE32(1)) ‖ … cut to the length, as RFC 8017 builds it |
| Mgf1.MaskTwice | exosphere/titlekey.c:55-58 | masking a sub-buffer twice with the same seed and length restores the buffer |
| Mgf1.MaskExtend | exosphere/titlekey.c:55-58 | XORing the first c bytes of block n after n whole masked blocks gives the buffer masked up to 32n + c bytes |
| Mgf1.HashRound | exosphere/titlekey.c:46-53 | the counter is stored big-endian after the seed, the seed is kept, and the digest is H(seed ‖ BE32(round)) |
| Mgf1.XorDigestInto | exosphere/titlekey.c:55-58 | the first count digest bytes are XORed into the buffer from the output position on, nothing else changes, and the position advances by count |
| Mgf1.MaskRound | exosphere/titlekey.c:41-60 | one pass of the loop keeps the seed in the hash buffer, advances the output by the chunk size, and extends the masked prefix of the buffer from 32n to 32n + chunk bytes |
| Mgf1.CalculateMgf1AndXor | exosphere/titlekey.c:26-62 | panics, changing nothing, exactly when the seed has 0xE0 bytes or more; otherwise byte start + k becomes old byte XOR H(seed ‖ BE32(k div 32))[k mod 32] for every k below the size, and no other byte changes |
| WrappedMessage.Unmask | exosphere/titlekey.c:93-96 | unmasking keeps the message 256 bytes long |
| WrappedMessage.FirstNonzero | exosphere/titlekey.c:116-127 | the result is the position of a nonzero byte with only zeros before it, or none when every byte is zero |
| WrappedMessage.Scan | exosphere/titlekey.c:110-133 | a nonzero result k means the region is well padded for k: zeros before position k - 1 (at least one), 0x01 at k - 1, and 1 to 189 bytes after it that fit the destination |
| WrappedMessage.UnwrapResult | exosphere/titlekey.c:79-137 | a nonzero result means a zero leading byte, an unmasked DB that starts with the expected prefix, and a well-padded region for that offset |
| WrappedMessage.FirstNonzeroAt | exosphere/titlekey.c:116-127 | a nonzero byte with only zeros before it is the one the scan finds |
| WrappedMessage.ScanAccepts | exosphere/titlekey.c:110-133 | the scan returns k exactly when the region is well padded for k |
| WrappedMessage.ScanRejects | exosphere/titlekey.c:110-133 | the scan rejects a nonzero first byte, a first nonzero byte other than 0x01, an all-zero region, a separator at position 190, and a payload longer than the destination |
| WrappedMessage.UnwrapAccepts | exosphere/titlekey.c:82-133 | the unwrap accepts with offset k exactly when the leading byte is zero, the unmasked prefix matches and the region is well padded for k |
| WrappedMessage.EncodeDb | exosphere/titlekey.c:74 | the DB built by the wrapping side is 223 bytes |
| WrappedMessage.Encode | exosphere/titlekey.c:70-72 | the message built by the wrapping side is 256 bytes |
| WrappedMessage.XorTwice | exosphere/titlekey.c:56 | XORing one mask twice into a string restores it |
| WrappedMessage.XorAtMiddle | exosphere/titlekey.c:94-96 | XORing a mask into the middle part of a three-part string masks only that part |
| WrappedMessage.UnmaskParts | exosphere/titlekey.c:93-96 | unmasking keeps the leading byte, turns the masked salt into salt = maskedSalt ⊕ MGF1(maskedDB), and turns the masked DB into maskedDB ⊕ MGF1(salt) |
| WrappedMessage.UnmaskEncode | exosphere/titlekey.c:70-96 | unmasking an encoded message gives back 0x00 ‖ salt ‖ DB for every salt |
| WrappedMessage.RoundTrip | exosphere/titlekey.c:70-137 | for every prefix, salt and wrapped key C of 1 to 189 bytes that fits the destination, the encoded message is accepted with offset 191 - \|C\| and delivers exactly C |
| WrappedMessage.AcceptedIsEncoding | exosphere/titlekey.c:79-137 | every accepted message is the encoding of its unmasked salt and the payload it delivers, and that payload has 1 to 189 bytes |
| Titlekey.Context.constructor | exosphere/titlekey.c:9-10 | at boot the prefix is zero and the revision is MASTERKEY_REVISION_MAX |
| Titlekey.Context.SetExpectedDbPrefix | exosphere/titlekey.c:13-17 | after the four-word copy the 32-byte prefix equals the argument |
| Titlekey.Context.SetMasterKeyRevAsWritten | exosphere/titlekey.c:19-23 | panics exactly when the revision is MASTERKEY_REVISION_MAX or more; nothing is stored (no modifies clause) |
| Titlekey.Context.SetMasterKeyRev | exosphere/titlekey.c:19-23 | the corrected setter of the finding at these lines (which store nothing as written): panics, changing nothing, exactly when the revision is MASTERKEY_REVISION_MAX or more; otherwise the revision is stored |
| Titlekey.UnmaskInPlace | exosphere/titlekey.c:93-96 | the two calls of calculate_mgf1_and_xor leave the message unmasked: first the salt with the masked DB as seed, then the DB with the recovered salt as seed |
| Titlekey.Context.PrefixMatches | exosphere/titlekey.c:98-103 | the loop accepts exactly when the 32 bytes after the salt equal the expected prefix |
| Titlekey.LocateWrappedKey | exosphere/titlekey.c:110-133 | the zero check, the scan loop and the size check return exactly the offset Scan specifies |
| Titlekey.Context.RsaUnwrap | exosphere/titlekey.c:64-138 | panics, changing nothing, unless src holds 256 bytes; otherwise returns UnwrapResult; leaves src as it is when its first byte is nonzero and unmasks it in place otherwise; copies the payload to the front of dst on success, keeping the rest of dst, and leaves dst untouched on rejection |
| Titlekey.Context.AesUnwrap | exosphere/titlekey.c:140-155 | panics, changing nothing, when the revision is MASTERKEY_REVISION_MAX or more or either buffer is not 16 bytes; otherwise keyslot 9 holds the titlekek (the constant decrypted under the master key of the revision), no other keyslot changes, and dst holds src decrypted under the titlekek |
| Titlekey.AsWrittenAesUnwrapPanics | exosphere/titlekey.c:19-23 | with the setter as written, boot, setting the prefix, setting any revision and unwrapping always ends in a panic |
| Titlekey.CorrectedAesUnwrapSucceeds | exosphere/titlekey.c:140-155 | with the corrected setter and a revision below MASTERKEY_REVISION_MAX, the same sequence returns src decrypted under that revision's titlekek |

## Left out

- SHA-256 (FIPS 180-4), AES-128 decryption (FIPS 197) and `mkey_get_keyslot`: these are uninterpreted, total functions fixed when an `Engine` is created. The hardware and `masterkey.c` are not part of this model. `mkey_get_keyslot` is a pure lookup, so any check it makes of the revision is not modelled.
- `cache_flush` (exosphere/titlekey.c:52): it has no effect on the values computed, so it is left out.
- `MASTERKEY_REVISION_MAX` and `KEYSLOT_SWITCH_TEMPKEY`: their headers are not part of this model. The first is a constructor parameter of `Context`. The second is keyslot 9, as the comment at exosphere/titlekey.c:149 says. The engine has 16 keyslots.
- Buffer and size pairs of the C interface: a buffer and its size are one array and its `Length`, and read-only inputs are sequences. A size that disagrees with its buffer cannot be expressed. `RsaUnwrap` requires `dst`, `src` and the prefix to be distinct arrays, so the model excludes every call where `dst` and `src` are the same buffer. That includes the calls C defines: with `dst == src`, the copy at exosphere/titlekey.c:136 moves src[0x41 + k .. 0x100) to src[0 .. 191 - k), and those ranges are disjoint when k ≥ 63.
- `g_tkey_expected_db_prefix` is modelled as 32 bytes rather than four `uint64_t` words. The byte order inside a word plays no part, because the copy and the comparison both treat the words as raw bytes.
- The RSA-2048 decryption that produces the 256-byte message happens outside this code.
- Concurrency on the shared temporary keyslot: the model is single-threaded.
- Integer widths: revisions are unbounded naturals rather than `unsigned int`. The MGF1 round counter is wrapped modulo 2^32 explicitly (`Mgf1.MaskBlock`). Sizes are naturals.
- The code rejects a nonzero first region byte (exosphere/titlekey.c:111). So the separator sits at region position 1 to 189, and the payload has 1 to 189 bytes. The model follows the code.

## Findings

| source | as written | input that shows it | evidently intended | confidence | as-written member | corrected member |
|---|---|---|---|---|---|---|
| exosphere/titlekey.c:19-23 | `tkey_set_master_key_rev` checks the revision but never stores it, so `g_tkey_master_key_rev` keeps its initial value `MASTERKEY_REVISION_MAX` and `tkey_aes_unwrap` panics at :141 on every call | boot, `tkey_set_master_key_rev(0)` (with `MASTERKEY_REVISION_MAX` > 0), then `tkey_aes_unwrap` on any 16-byte buffers: panic | store `g_tkey_master_key_rev = master_key_rev` after the check | high, not executed | Titlekey.AsWrittenAesUnwrapPanics | Titlekey.CorrectedAesUnwrapSucceeds, with the corrected setter Titlekey.Context.SetMasterKeyRev |
