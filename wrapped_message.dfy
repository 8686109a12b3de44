/** The 256-byte RSA-wrapped titlekey message and what tkey_rsa_unwrap
    makes of it, as functions of the message bytes.

    Layout: 0x00 ‖ maskedSalt[32] ‖ maskedDB[223], with
    maskedDB = DB ⊕ MGF1(salt) and maskedSalt = salt ⊕ MGF1(maskedDB), the
    masking of EME-OAEP (section 7.1.1 of RFC 8017). The DB is
    expected_prefix[32] ‖ 00 … 00 ‖ 01 ‖ wrapped_titlekey, so the
    configured 32-byte expected prefix takes the place of OAEP's label hash,
    and the salt is never checked. */
module WrappedMessage {
  import opened Bytes
  import opened SecurityEngine
  import opened Mgf1

  const MessageSize := 0x100
  const SaltOffset := 0x01
  const SaltSize := 0x20
  const DbOffset := 0x21
  const DbSize := 0xDF
  const PrefixSize := 0x20
  /** The region after the DB prefix: padding, separator and wrapped key. */
  const RegionOffset := 0x41
  const RegionSize := 0xBF
  /** tkey_rsa_unwrap demands a zero right after the prefix and a 0x01
      separator, so at most 189 bytes of wrapped key remain. */
  const MaxPayloadSize := 0xBD

  /** The message after tkey_rsa_unwrap's two in-place unmasking steps: the
      salt is unmasked with the still-masked DB as seed, then the DB with the
      recovered salt as seed. The leading byte is left as it is. */
  function Unmask(h: Hash, msg: seq<Byte>): (u: seq<Byte>)
    requires |msg| == MessageSize
    ensures |u| == MessageSize
  {
    var saltDone := XorAt(msg, SaltOffset, Mask(h, msg[DbOffset..], SaltSize));
    XorAt(saltDone, DbOffset, Mask(h, saltDone[SaltOffset..DbOffset], DbSize))
  }

  /** The position of the first nonzero byte of `region`, if any. */
  function FirstNonzero(region: seq<Byte>): (r: Option<nat>)
    ensures r.Some? ==> r.value < |region| && region[r.value] != 0
    ensures r.Some? ==> forall j :: 0 <= j < r.value ==> region[j] == 0
    ensures r.None? ==> forall j :: 0 <= j < |region| ==> region[j] == 0
  {
    if region == [] then None
    else if region[0] != 0 then Some(0)
    else match FirstNonzero(region[1..])
      case None => None
      case Some(j) => Some(j + 1)
  }

  /** `region` (the 191 bytes after the DB prefix) is accepted with offset
      `k`: bytes 0 .. k - 2 are zero (at least one of them), byte k - 1 is the
      0x01 separator, and the 191 - k bytes after it (at least one) fit in a
      destination of `dstSize` bytes. */
  ghost predicate WellPadded(region: seq<Byte>, k: nat, dstSize: nat)
  {
    && |region| == RegionSize
    && 2 <= k < RegionSize
    && region[k - 1] == 1
    && (forall j :: 0 <= j < k - 1 ==> region[j] == 0)
    && RegionSize - k <= dstSize
  }

  /** The offset tkey_rsa_unwrap's padding checks and scan return for the
      region after the prefix; 0 is rejection. */
  function Scan(region: seq<Byte>, dstSize: nat): (k: nat)
    requires |region| == RegionSize
    ensures k != 0 ==> WellPadded(region, k, dstSize)
  {
    if region[0] != 0 then 0
    else match FirstNonzero(region)
      case None => 0
      case Some(j) =>
        if region[j] != 1 || j + 1 == RegionSize || RegionSize - (j + 1) > dstSize then 0
        else j + 1
  }

  /** What tkey_rsa_unwrap returns for a 256-byte message, the configured
      prefix and a destination of `dstSize` bytes; 0 is rejection. */
  function UnwrapResult(h: Hash, msg: seq<Byte>, prefix: seq<Byte>, dstSize: nat): (k: nat)
    requires |msg| == MessageSize && |prefix| == PrefixSize
    ensures k != 0 ==> msg[0] == 0
    ensures k != 0 ==> Unmask(h, msg)[DbOffset..RegionOffset] == prefix
    ensures k != 0 ==> WellPadded(Unmask(h, msg)[RegionOffset..], k, dstSize)
  {
    if msg[0] != 0 then 0
    else
      var u := Unmask(h, msg);
      if u[DbOffset..RegionOffset] != prefix then 0
      else Scan(u[RegionOffset..], dstSize)
  }

  /** The wrapped titlekey an accepted message carries: the unmasked bytes
      after the separator. */
  function Payload(h: Hash, msg: seq<Byte>, k: nat): seq<Byte>
    requires |msg| == MessageSize && k <= RegionSize
  {
    Unmask(h, msg)[RegionOffset + k..]
  }

  lemma {:induction false} FirstNonzeroAt(region: seq<Byte>, j: nat)
    requires j < |region| && region[j] != 0
    requires forall i :: 0 <= i < j ==> region[i] == 0
    ensures FirstNonzero(region) == Some(j)
  {
    if j > 0 {
      assert region[0] == 0;
      FirstNonzeroAt(region[1..], j - 1);
    }
  }

  /** The scan accepts with offset k exactly when the region is well padded
      for k. */
  lemma ScanAccepts(region: seq<Byte>, dstSize: nat, k: nat)
    requires |region| == RegionSize && k != 0
    ensures Scan(region, dstSize) == k <==> WellPadded(region, k, dstSize)
  {
    if WellPadded(region, k, dstSize) {
      FirstNonzeroAt(region, k - 1);
    }
  }

  /** The rejections of tkey_rsa_unwrap's padding checks. */
  lemma ScanRejects(region: seq<Byte>, dstSize: nat, j: nat)
    requires |region| == RegionSize && j < RegionSize
    requires forall i :: 0 <= i < j ==> region[i] == 0
    ensures region[0] != 0 ==> Scan(region, dstSize) == 0
    ensures region[j] !in {0, 1} ==> Scan(region, dstSize) == 0
    ensures j == RegionSize - 1 && region[j] == 0 ==> Scan(region, dstSize) == 0
    ensures j == RegionSize - 1 && region[j] == 1 ==> Scan(region, dstSize) == 0
    ensures region[j] == 1 && RegionSize - 1 - j > dstSize ==> Scan(region, dstSize) == 0
  {
    if region[j] != 0 {
      FirstNonzeroAt(region, j);
    }
  }

  /** tkey_rsa_unwrap accepts a message with offset k exactly when its
      leading byte is zero, its unmasked DB starts with the expected prefix
      and the rest of the DB is well padded for k. */
  lemma UnwrapAccepts(h: Hash, msg: seq<Byte>, prefix: seq<Byte>, dstSize: nat, k: nat)
    requires |msg| == MessageSize && |prefix| == PrefixSize && k != 0
    ensures UnwrapResult(h, msg, prefix, dstSize) == k <==>
      && msg[0] == 0
      && Unmask(h, msg)[DbOffset..RegionOffset] == prefix
      && WellPadded(Unmask(h, msg)[RegionOffset..], k, dstSize)
  {
    ScanAccepts(Unmask(h, msg)[RegionOffset..], dstSize, k);
  }

  /** The DB the wrapping side builds around a wrapped titlekey `c`:
      prefix ‖ 00 … 00 ‖ 01 ‖ c, 223 bytes in all. */
  function EncodeDb(prefix: seq<Byte>, c: seq<Byte>): (db: seq<Byte>)
    requires |prefix| == PrefixSize && 1 <= |c| <= MaxPayloadSize
    ensures |db| == DbSize
  {
    prefix + Zeros(RegionSize - 1 - |c|) + [1] + c
  }

  /** The message the wrapping side builds: 0x00 ‖ maskedSalt ‖ maskedDB. */
  function Encode(h: Hash, prefix: seq<Byte>, salt: seq<Byte>, c: seq<Byte>): (msg: seq<Byte>)
    requires |prefix| == PrefixSize && |salt| == SaltSize && 1 <= |c| <= MaxPayloadSize
    ensures |msg| == MessageSize
  {
    var maskedDb := Xor(EncodeDb(prefix, c), Mask(h, salt, DbSize));
    var maskedSalt := Xor(salt, Mask(h, maskedDb, SaltSize));
    [0] + maskedSalt + maskedDb
  }

  lemma XorTwice(a: seq<Byte>, m: seq<Byte>)
    requires |a| == |m|
    ensures Xor(Xor(a, m), m) == a
  {
    forall i | 0 <= i < |a|
      ensures Xor(Xor(a, m), m)[i] == a[i]
    {
      XorCancel(a[i], m[i]);
    }
  }

  /** XORing a mask into the middle part of a three-part string. */
  lemma XorAtMiddle(a: seq<Byte>, m: seq<Byte>, b: seq<Byte>, mask: seq<Byte>)
    requires |m| == |mask|
    ensures XorAt(a + m + b, |a|, mask) == a + Xor(m, mask) + b
  {
  }

  /** Unmasking, by the parts of the message: the salt is unmasked with the
      masked DB as seed, then the DB with the recovered salt. */
  lemma UnmaskParts(h: Hash, first: Byte, maskedSalt: seq<Byte>, maskedDb: seq<Byte>)
    requires |maskedSalt| == SaltSize && |maskedDb| == DbSize
    ensures var salt := Xor(maskedSalt, Mask(h, maskedDb, SaltSize));
      Unmask(h, [first] + maskedSalt + maskedDb) == [first] + salt + Xor(maskedDb, Mask(h, salt, DbSize))
  {
    var msg := [first] + maskedSalt + maskedDb;
    assert msg[DbOffset..] == maskedDb;
    var salt := Xor(maskedSalt, Mask(h, maskedDb, SaltSize));
    XorAtMiddle([first], maskedSalt, maskedDb, Mask(h, maskedDb, SaltSize));
    var saltDone := [first] + salt + maskedDb;
    assert saltDone[SaltOffset..DbOffset] == salt;
    XorAtMiddle([first] + salt, maskedDb, [], Mask(h, salt, DbSize));
    assert saltDone + [] == saltDone;
  }

  /** Unmasking an encoded message recovers the salt and the DB. */
  lemma UnmaskEncode(h: Hash, prefix: seq<Byte>, salt: seq<Byte>, c: seq<Byte>)
    requires |prefix| == PrefixSize && |salt| == SaltSize && 1 <= |c| <= MaxPayloadSize
    ensures Unmask(h, Encode(h, prefix, salt, c)) == [0] + salt + EncodeDb(prefix, c)
  {
    var db := EncodeDb(prefix, c);
    var maskedDb := Xor(db, Mask(h, salt, DbSize));
    var maskedSalt := Xor(salt, Mask(h, maskedDb, SaltSize));
    assert Encode(h, prefix, salt, c) == [0] + maskedSalt + maskedDb;
    UnmaskParts(h, 0, maskedSalt, maskedDb);
    XorTwice(salt, Mask(h, maskedDb, SaltSize));
    XorTwice(db, Mask(h, salt, DbSize));
  }

  /** Round trip: tkey_rsa_unwrap accepts every message built by the
      wrapping side from the configured prefix, any salt and a wrapped
      titlekey of 1 .. 189 bytes that fits the destination, returns offset
      191 - |c| and delivers exactly `c`. */
  lemma RoundTrip(h: Hash, prefix: seq<Byte>, salt: seq<Byte>, c: seq<Byte>, dstSize: nat)
    requires |prefix| == PrefixSize && |salt| == SaltSize && 1 <= |c| <= MaxPayloadSize
    requires |c| <= dstSize
    ensures UnwrapResult(h, Encode(h, prefix, salt, c), prefix, dstSize) == RegionSize - |c|
    ensures Payload(h, Encode(h, prefix, salt, c), RegionSize - |c|) == c
  {
    var msg := Encode(h, prefix, salt, c);
    UnmaskEncode(h, prefix, salt, c);
    var u := Unmask(h, msg);
    var k := RegionSize - |c|;
    var region := u[RegionOffset..];
    assert u[DbOffset..RegionOffset] == prefix;
    assert region == Zeros(k - 1) + [1] + c;
    assert WellPadded(region, k, dstSize);
    UnwrapAccepts(h, msg, prefix, dstSize, k);
    assert u[RegionOffset + k..] == c;
  }

  /** Conversely, every message tkey_rsa_unwrap accepts is the encoding of
      its unmasked salt and the payload it delivers. */
  lemma AcceptedIsEncoding(h: Hash, msg: seq<Byte>, prefix: seq<Byte>, dstSize: nat)
    requires |msg| == MessageSize && |prefix| == PrefixSize
    requires UnwrapResult(h, msg, prefix, dstSize) != 0
    ensures var k := UnwrapResult(h, msg, prefix, dstSize);
      && 1 <= |Payload(h, msg, k)| <= MaxPayloadSize
      && msg == Encode(h, prefix, Unmask(h, msg)[SaltOffset..DbOffset], Payload(h, msg, k))
  {
    var k := UnwrapResult(h, msg, prefix, dstSize);
    var maskedSalt, maskedDb := msg[SaltOffset..DbOffset], msg[DbOffset..];
    assert msg == [0] + maskedSalt + maskedDb;
    var saltMask := Mask(h, maskedDb, SaltSize);
    var salt := Xor(maskedSalt, saltMask);
    var dbMask := Mask(h, salt, DbSize);
    var db := Xor(maskedDb, dbMask);
    UnmaskParts(h, 0, maskedSalt, maskedDb);
    var u := Unmask(h, msg);
    assert u[SaltOffset..DbOffset] == salt && u[DbOffset..] == db;
    var c := Payload(h, msg, k);
    assert db == EncodeDb(prefix, c) by {
      assert u[RegionOffset..] == Zeros(k - 1) + [1] + c;
    }
    XorTwice(maskedDb, dbMask);
    XorTwice(maskedSalt, saltMask);
  }

}
