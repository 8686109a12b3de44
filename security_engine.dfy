/** The boundary of the hardware security engine as the titlekey code sees
    it: a SHA-256 primitive, AES-ECB block decryption and a store of AES
    keyslots addressed by index. The algorithms themselves are not modelled:
    SHA-256 (FIPS 180-4) and AES decryption (FIPS 197) are uninterpreted
    functions fixed when the engine is created. */
module SecurityEngine {
  import opened Bytes

  /** The engine holds 16 AES keyslots. */
  const KeyslotCount := 16
  const DigestSize := 0x20
  const AesBlockSize := 0x10

  type Slot = n: nat | n < KeyslotCount

  /** KEYSLOT_SWITCH_TEMPKEY, keyslot 9: the scratch slot the titlekek is
      derived into. */
  const TempKeyslot: Slot := 9

  /** A SHA-256 digest. */
  type Digest = s: seq<Byte> | |s| == DigestSize witness Zeros(DigestSize)

  /** A 16-byte AES block; AES-128 keys have the same shape. */
  type Block = s: seq<Byte> | |s| == AesBlockSize witness Zeros(AesBlockSize)

  /** `se_calculate_sha256` as a function of the bytes hashed. */
  type Hash = seq<Byte> -> Digest

  class Engine {
    /** The key held in each keyslot. */
    var keyslots: seq<Block>
    /** se_calculate_sha256 */
    const sha256: Hash
    /** AES-128 decryption of one block under a key. */
    const aesDecrypt: (Block, Block) -> Block
    /** mkey_get_keyslot: the keyslot holding the master key of a revision. */
    const masterKeyslot: nat -> Slot

    ghost predicate Valid()
      reads this
    {
      |keyslots| == KeyslotCount
    }

    constructor (keys: seq<Block>, sha256: Hash, aesDecrypt: (Block, Block) -> Block,
                 masterKeyslot: nat -> Slot)
      requires |keys| == KeyslotCount
      ensures Valid() && keyslots == keys
      ensures this.sha256 == sha256 && this.aesDecrypt == aesDecrypt
      ensures this.masterKeyslot == masterKeyslot
    {
      keyslots := keys;
      this.sha256 := sha256;
      this.aesDecrypt := aesDecrypt;
      this.masterKeyslot := masterKeyslot;
    }

    /** decrypt_data_into_keyslot: decrypts one block under the key in
        `srcSlot` and installs the plaintext as the key of `dstSlot`; no
        other keyslot changes. */
    method DecryptDataIntoKeyslot(dstSlot: Slot, srcSlot: Slot, data: Block)
      requires Valid()
      modifies this
      ensures Valid()
      ensures keyslots == old(keyslots)[dstSlot := aesDecrypt(old(keyslots)[srcSlot], data)]
    {
      keyslots := keyslots[dstSlot := aesDecrypt(keyslots[srcSlot], data)];
    }

    /** se_aes_ecb_decrypt_block: writes the AES-ECB decryption of `src`
        under the key in `slot` into the 16-byte buffer `dst`. */
    method AesEcbDecryptBlock(slot: Slot, dst: array<Byte>, src: Block)
      requires Valid() && dst.Length == AesBlockSize
      modifies dst
      ensures dst[..] == aesDecrypt(keyslots[slot], src)
    {
      var plain := aesDecrypt(keyslots[slot], src);
      forall i | 0 <= i < AesBlockSize {
        dst[i] := plain[i];
      }
    }
  }
}
