/**
 * The 64-byte token that authorises one bootloader package on removable
 * media: it names the package's length and image hash, and carries its CRC-32
 * and the CRC's inverse.
 */
module BootToken {
  import opened Bytes
  import opened Crc
  import opened Container
  import opened Handoff

  const TOKEN_LEN: nat := 64
  const TOKEN_VERSION: u32 := 1
  const TOKEN_CRC_AT: nat := 56
  const TOKEN_MAGIC: seq<byte> := [0x4D, 0x4F, 0x54, 0x41, 0x53, 0x44, 0x42, 0x4C]

  /** The complement of a 32-bit register. */
  function Complement(n: u32): u32 { U32_MAX - n }

  function TokenBody(total: u32, imageHash: seq<byte>): seq<byte> {
    TOKEN_MAGIC + Put32(TOKEN_VERSION) + Put32(TOKEN_LEN) + Put32(total) + Put32(Complement(total)) + imageHash
  }

  predicate TokenValid(t: seq<byte>, total: u32, imageHash: seq<byte>)
    requires |t| == TOKEN_LEN
  {
    var crc := Word(t[TOKEN_CRC_AT..60]);
    && t[..8] == TOKEN_MAGIC
    && Get32(t[8..12]) == TOKEN_VERSION
    && Get32(t[12..16]) == TOKEN_LEN
    && Get32(t[16..20]) == total
    && Get32(t[20..24]) == Complement(total)
    && t[24..56] == imageHash
    && Crc32(t[..TOKEN_CRC_AT]) == crc
    && Word(t[60..]) == Inv(crc)
  }

  /** Zeroes the token, stores its words and the hash in place, and seals it. */
  method TokenEncode(out: array<byte>, total: u32, imageHash: seq<byte>)
    requires out.Length == TOKEN_LEN && |imageHash| == 32
    modifies out
    ensures out[..] == Seal(TokenBody(total, imageHash))
  {
    hide Put32, Update, WordBytes, Inv, Complement;
    Clear(out);
    Store(out, 0, TOKEN_MAGIC);
    Store(out, 8, Put32(TOKEN_VERSION));
    Store(out, 12, Put32(TOKEN_LEN));
    Store(out, 16, Put32(total));
    Store(out, 20, Put32(Complement(total)));
    Store(out, 24, imageHash);
    assert out[..TOKEN_CRC_AT] == TokenBody(total, imageHash);
    var crc := Crc32Update(0, out[..TOKEN_CRC_AT]);
    Store(out, TOKEN_CRC_AT, WordBytes(crc));
    Store(out, 60, WordBytes(Inv(crc)));
    assert out[..] == out[..64];
  }

  lemma TokenParts(t: seq<byte>)
    requires |t| == TOKEN_LEN
    ensures var b := t[..TOKEN_CRC_AT];
            && b[..8] == t[..8] && b[8..12] == t[8..12] && b[12..16] == t[12..16] && b[16..20] == t[16..20]
            && b[20..24] == t[20..24] && b[24..] == t[24..56]
            && b == t[..8] + t[8..12] + t[12..16] + t[16..20] + t[20..24] + t[24..56]
  {}

  lemma TokenBodyParts(total: u32, imageHash: seq<byte>)
    requires |imageHash| == 32
    ensures var b := TokenBody(total, imageHash);
            && |b| == TOKEN_CRC_AT && b[..8] == TOKEN_MAGIC && b[8..12] == Put32(TOKEN_VERSION)
            && b[12..16] == Put32(TOKEN_LEN)
            && b[16..20] == Put32(total) && b[20..24] == Put32(Complement(total)) && b[24..] == imageHash
  {
    hide Put32, Complement;
  }

  /** Where each field of a token lies. */
  lemma TokenLayout(total: u32, imageHash: seq<byte>)
    requires |imageHash| == 32
    ensures var b := TokenBody(total, imageHash);
            && |b| == 56 && b[..8] == [0x4D, 0x4F, 0x54, 0x41, 0x53, 0x44, 0x42, 0x4C]
            && Get32(b[8..12]) == 1 && Get32(b[12..16]) == 64 && Get32(b[16..20]) == total
            && Get32(b[20..24]) == 0xFFFF_FFFF - total && b[24..] == imageHash
  {
    TokenBodyParts(total, imageHash);
    hide Get32, Put32, TokenBody;
  }

  /** One token, and no other, is accepted for a package. */
  lemma TokenIsExact(t: seq<byte>, total: u32, imageHash: seq<byte>)
    requires |t| == TOKEN_LEN && |imageHash| == 32
    ensures TokenValid(t, total, imageHash) <==> t == Seal(TokenBody(total, imageHash))
  {
    hide TokenBody, Seal, TokenValid, Sealed;
    TokenBodyParts(total, imageHash);
    SealIsSealed(TokenBody(total, imageHash));
    if t == Seal(TokenBody(total, imageHash)) {
      BodyIsValid(t, total, imageHash);
    }
    if TokenValid(t, total, imageHash) {
      ValidIsBody(t, total, imageHash);
      SealedIsSeal(t);
    }
  }

  lemma BodyIsValid(t: seq<byte>, total: u32, imageHash: seq<byte>)
    requires |t| == TOKEN_LEN && |imageHash| == 32 && Sealed(t) && t[..TOKEN_CRC_AT] == TokenBody(total, imageHash)
    ensures TokenValid(t, total, imageHash)
  {
    hide Put32, Get32, Crc32, Word, Inv, Complement, TokenBody;
    TokenBodyParts(total, imageHash);
    TokenParts(t);
  }

  lemma ValidIsBody(t: seq<byte>, total: u32, imageHash: seq<byte>)
    requires |t| == TOKEN_LEN && TokenValid(t, total, imageHash)
    ensures Sealed(t) && t[..TOKEN_CRC_AT] == TokenBody(total, imageHash)
  {
    hide Put32, Get32, Crc32, Word, Inv, Complement;
    TokenParts(t);
    PutGet32(t[8..12]);
    PutGet32(t[12..16]);
    PutGet32(t[16..20]);
    PutGet32(t[20..24]);
  }

  /** An accepted token altered within four consecutive bytes is accepted for no package at all. */
  lemma TokenRejectsWindow(t: seq<byte>, altered: seq<byte>, at: nat, total: u32, imageHash: seq<byte>,
                           total': u32, imageHash': seq<byte>)
    requires |t| == TOKEN_LEN && |altered| == TOKEN_LEN && TokenValid(t, total, imageHash)
    requires DifferOnlyIn(t, altered, at, at + 4) && altered != t
    ensures !TokenValid(altered, total', imageHash')
  {
    hide TokenValid, TokenBody, Sealed;
    ValidIsBody(t, total, imageHash);
    if TokenValid(altered, total', imageHash') {
      ValidIsBody(altered, total', imageHash');
      SealedDetectsWindow(t, altered, at);
    }
  }
}
