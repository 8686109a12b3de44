/** The titlekey state of the secure monitor and its operations: setting
    the expected DB prefix and the master-key revision, unwrapping an
    RSA-wrapped titlekey from a 256-byte message, and unwrapping an
    AES-wrapped titlekey through the temporary keyslot. */
module Titlekey {
  import opened Bytes
  import opened SecurityEngine
  import opened Mgf1
  import opened WrappedMessage

  /** The titlekek source constant that tkey_aes_unwrap decrypts under the
      master key to obtain the titlekek. */
  const TitlekekSource: Block :=
    [0x1E, 0xDC, 0x7B, 0x3B, 0x60, 0xE6, 0xB4, 0xD8,
     0x78, 0xB8, 0x17, 0x15, 0x98, 0x5E, 0x62, 0x9B]

  /** The titlekek of master-key revision `rev`: the titlekek source
      decrypted under the key in that revision's master keyslot. */
  function Titlekek(se: Engine, keys: seq<Block>, rev: nat): Block
    requires |keys| == KeyslotCount
  {
    se.aesDecrypt(keys[se.masterKeyslot(rev)], TitlekekSource)
  }

  /** The titlekey state: the globals g_tkey_expected_db_prefix and
      g_tkey_master_key_rev, and MASTERKEY_REVISION_MAX. */
  class Context {
    /** g_tkey_expected_db_prefix: four 64-bit words, seen as 32 bytes. */
    const expectedDbPrefix: array<Byte>
    /** g_tkey_master_key_rev */
    var masterKeyRev: nat
    /** MASTERKEY_REVISION_MAX */
    const revisionMax: nat

    /** The prefix buffer holds 32 bytes, and the revision is either the
        initial MASTERKEY_REVISION_MAX or one accepted by the setter. */
    ghost predicate Valid()
      reads this
    {
      expectedDbPrefix.Length == PrefixSize && masterKeyRev <= revisionMax
    }

    /** The globals at boot: a zeroed prefix and the revision
        MASTERKEY_REVISION_MAX, with which tkey_aes_unwrap refuses to run. */
    constructor (revisionMax: nat)
      ensures Valid() && fresh(expectedDbPrefix)
      ensures expectedDbPrefix[..] == Zeros(PrefixSize)
      ensures masterKeyRev == revisionMax && this.revisionMax == revisionMax
    {
      expectedDbPrefix := new Byte[PrefixSize](_ => 0);
      masterKeyRev := revisionMax;
      this.revisionMax := revisionMax;
    }

    /** tkey_set_expected_db_prefix: copies the four 64-bit words of
        `dbPrefix` into the global, which then equals `dbPrefix`. */
    method SetExpectedDbPrefix(dbPrefix: seq<Byte>)
      requires Valid() && |dbPrefix| == PrefixSize
      modifies expectedDbPrefix
      ensures Valid()
      ensures expectedDbPrefix[..] == dbPrefix
    {
      for i := 0 to 4
        invariant expectedDbPrefix[..8 * i] == dbPrefix[..8 * i]
      {
        forall j | 8 * i <= j < 8 * i + 8 {
          expectedDbPrefix[j] := dbPrefix[j];
        }
      }
    }

    /** tkey_set_master_key_rev as written: panics on a revision of
        MASTERKEY_REVISION_MAX or more and otherwise returns without storing
        anything, so g_tkey_master_key_rev keeps its value. */
    method SetMasterKeyRevAsWritten(rev: nat) returns (r: Outcome<()>)
      requires Valid()
      ensures r == Panic <==> rev >= revisionMax
    {
      if rev >= revisionMax {
        return Panic;
      }
      return Return(());
    }

    /** tkey_set_master_key_rev as intended: panics on a revision of
        MASTERKEY_REVISION_MAX or more, changing nothing, and otherwise
        stores the revision. */
    method SetMasterKeyRev(rev: nat) returns (r: Outcome<()>)
      requires Valid()
      modifies this
      ensures Valid()
      ensures r == Panic <==> rev >= revisionMax
      ensures r == Panic ==> masterKeyRev == old(masterKeyRev)
      ensures r.Return? ==> masterKeyRev == rev
    {
      if rev >= revisionMax {
        return Panic;
      }
      masterKeyRev := rev;
      return Return(());
    }

    /** tkey_rsa_unwrap(dst, dst.Length, src, src.Length): panics unless
        `src` holds 256 bytes. Otherwise returns UnwrapResult of the
        message, the configured prefix and the destination size; a message
        whose leading byte is nonzero is left as it is, any other is
        unmasked in place; on success the payload is copied to the front of
        `dst`, and otherwise `dst` is unchanged. */
    method RsaUnwrap(se: Engine, dst: array<Byte>, src: array<Byte>) returns (r: Outcome<nat>)
      requires Valid()
      requires dst != src && src != expectedDbPrefix && dst != expectedDbPrefix
      modifies dst, src
      ensures r == Panic <==> src.Length != MessageSize
      ensures r == Panic ==> src[..] == old(src[..]) && dst[..] == old(dst[..])
      ensures r.Return? ==>
        src.Length == MessageSize &&
        r.value == UnwrapResult(se.sha256, old(src[..]), expectedDbPrefix[..], dst.Length)
      ensures r.Return? && old(src[0]) != 0 ==> src[..] == old(src[..])
      ensures r.Return? && old(src[0]) == 0 ==> src[..] == Unmask(se.sha256, old(src[..]))
      ensures r.Return? && r.value == 0 ==> dst[..] == old(dst[..])
      ensures r.Return? && r.value != 0 ==>
        dst[..] == Payload(se.sha256, old(src[..]), r.value)
                   + old(dst[..])[RegionSize - r.value..]
    {
      if src.Length != MessageSize {
        return Panic;
      }
      if src[0] != 0 {
        return Return(0);
      }
      ghost var msg := src[..];
      UnmaskInPlace(se.sha256, src);
      var prefixOk := PrefixMatches(src);
      if !prefixOk {
        return Return(0);
      }
      var offset := LocateWrappedKey(src, dst.Length);
      if offset == 0 {
        return Return(0);
      }
      var size := RegionSize - offset;
      forall i | 0 <= i < size {
        dst[i] := src[RegionOffset + offset + i];
      }
      assert dst[..size] == Payload(se.sha256, msg, offset);
      return Return(offset);
    }

    /** The prefix check of tkey_rsa_unwrap: whether the first 32 bytes of
        the unmasked DB equal the expected prefix. */
    method PrefixMatches(src: array<Byte>) returns (ok: bool)
      requires Valid() && src.Length == MessageSize
      ensures ok <==> src[DbOffset..RegionOffset] == expectedDbPrefix[..]
    {
      for i := 0 to PrefixSize
        invariant forall j :: 0 <= j < i ==> expectedDbPrefix[j] == src[DbOffset + j]
      {
        if expectedDbPrefix[i] != src[DbOffset + i] {
          assert src[DbOffset..RegionOffset][i] != expectedDbPrefix[..][i];
          return false;
        }
      }
      assert src[DbOffset..RegionOffset] == expectedDbPrefix[..];
      return true;
    }

    /** tkey_aes_unwrap(dst, dst.Length, src, |src|): panics, changing
        nothing, unless a revision has been stored and both buffers hold 16
        bytes. Otherwise installs the titlekek of the stored revision in the
        temporary keyslot, leaving every other keyslot as it was, and writes
        the AES-ECB decryption of `src` under it into `dst`. */
    method AesUnwrap(se: Engine, dst: array<Byte>, src: seq<Byte>) returns (r: Outcome<()>)
      requires Valid() && se.Valid()
      modifies se, dst
      ensures se.Valid()
      ensures r == Panic <==> masterKeyRev >= revisionMax || dst.Length != AesBlockSize || |src| != AesBlockSize
      ensures r == Panic ==> se.keyslots == old(se.keyslots) && dst[..] == old(dst[..])
      ensures r.Return? ==>
        se.keyslots == old(se.keyslots)[TempKeyslot := Titlekek(se, old(se.keyslots), masterKeyRev)]
      ensures r.Return? && |src| == AesBlockSize ==>
        dst[..] == se.aesDecrypt(Titlekek(se, old(se.keyslots), masterKeyRev), src)
    {
      if masterKeyRev >= revisionMax || dst.Length != AesBlockSize || |src| != AesBlockSize {
        return Panic;
      }
      var masterKeyslot := se.masterKeyslot(masterKeyRev);
      se.DecryptDataIntoKeyslot(TempKeyslot, masterKeyslot, TitlekekSource);
      se.AesEcbDecryptBlock(TempKeyslot, dst, src);
      return Return(());
    }
  }

  /** The two unmasking steps of tkey_rsa_unwrap: the salt with the masked
      DB as seed, then the DB with the recovered salt as seed. */
  method UnmaskInPlace(h: Hash, src: array<Byte>)
    requires src.Length == MessageSize
    modifies src
    ensures src[..] == Unmask(h, old(src[..]))
  {
    ghost var msg := src[..];
    var unmaskSalt := CalculateMgf1AndXor(h, src, SaltOffset, SaltSize, src[DbOffset..]);
    ghost var saltDone := src[..];
    assert saltDone == XorAt(msg, SaltOffset, Mask(h, msg[DbOffset..], SaltSize));
    var unmaskDb := CalculateMgf1AndXor(h, src, DbOffset, DbSize, src[SaltOffset..DbOffset]);
  }

  /** The padding checks and the scan of tkey_rsa_unwrap over the region
      after the prefix: the offset just past the 0x01 separator, or 0 when
      the region is rejected. */
  method LocateWrappedKey(src: array<Byte>, dstSize: nat) returns (offset: nat)
    requires src.Length == MessageSize
    ensures offset == Scan(src[RegionOffset..], dstSize)
  {
    ghost var region := src[RegionOffset..];
    if src[RegionOffset] != 0 {
      ScanRejects(region, dstSize, 0);
      return 0;
    }
    offset := 0;
    while offset < RegionSize
      invariant offset <= RegionSize
      invariant forall j :: 0 <= j < offset ==> region[j] == 0
    {
      if src[RegionOffset + offset] == 0 {
        offset := offset + 1;
      } else if src[RegionOffset + offset] == 1 {
        offset := offset + 1;
        break;
      } else {
        ScanRejects(region, dstSize, offset);
        return 0;
      }
    }
    ScanRejects(region, dstSize, offset - 1);
    var size := RegionSize - offset;
    if size > dstSize || size == 0 {
      return 0;
    }
    ScanAccepts(region, dstSize, offset);
  }

  /** With the setter as written, tkey_aes_unwrap panics after any set-up
      sequence: the revision set at boot is never replaced. */
  method AsWrittenAesUnwrapPanics(revisionMax: nat, rev: nat, prefix: seq<Byte>,
                                  keys: seq<Block>, sha256: Hash,
                                  aesDecrypt: (Block, Block) -> Block,
                                  masterKeyslot: nat -> Slot, src: Block)
    returns (r: Outcome<()>)
    requires |prefix| == PrefixSize && |keys| == KeyslotCount
    ensures r == Panic
  {
    var ctx := new Context(revisionMax);
    ctx.SetExpectedDbPrefix(prefix);
    var setRev := ctx.SetMasterKeyRevAsWritten(rev);
    if setRev.Panic? {
      return Panic;
    }
    var se := new Engine(keys, sha256, aesDecrypt, masterKeyslot);
    var dst := new Byte[AesBlockSize];
    r := ctx.AesUnwrap(se, dst, src);
  }

  /** With the corrected setter, a revision below MASTERKEY_REVISION_MAX is
      stored and tkey_aes_unwrap then decrypts `src` under its titlekek. */
  method CorrectedAesUnwrapSucceeds(revisionMax: nat, rev: nat, prefix: seq<Byte>,
                                    keys: seq<Block>, sha256: Hash,
                                    aesDecrypt: (Block, Block) -> Block,
                                    masterKeyslot: nat -> Slot, src: Block)
    returns (r: Outcome<Block>)
    requires |prefix| == PrefixSize && |keys| == KeyslotCount
    requires rev < revisionMax
    ensures r == Return(aesDecrypt(aesDecrypt(keys[masterKeyslot(rev)], TitlekekSource), src))
  {
    var ctx := new Context(revisionMax);
    ctx.SetExpectedDbPrefix(prefix);
    var setRev := ctx.SetMasterKeyRev(rev);
    var se := new Engine(keys, sha256, aesDecrypt, masterKeyslot);
    var dst := new Byte[AesBlockSize];
    var done := ctx.AesUnwrap(se, dst, src);
    return Return(dst[..]);
  }
}
