/** The checksum of the ext4 superblock: the last field, over the bytes of all fields before it. */
module Superblock {
  import opened Crc

  const SUPERBLOCK_SIZE: nat := 1024
  const CHECKSUM_SIZE: nat := 4

  class Ext4Superblock {
    /** The bytes before the checksum. */
    var fields: seq<bv8>
    var checksum: bv32

    ghost predicate Valid()
      reads this
    {
      |fields| == SUPERBLOCK_SIZE - CHECKSUM_SIZE
    }

    /** The checksum is right. */
    ghost predicate Sealed()
      reads this
    {
      checksum == BitSerial(CRC32C_POLY, fields)
    }

    constructor (fields: seq<bv8>, checksum: bv32)
      requires |fields| == SUPERBLOCK_SIZE - CHECKSUM_SIZE
      ensures Valid() && this.fields == fields && this.checksum == checksum
    {
      this.fields := fields;
      this.checksum := checksum;
    }

    method ComputeChksum() returns (sum: bv32)
      requires Valid()
      ensures sum == BitSerial(CRC32C_POLY, fields)
    {
      sum := Crc32c(fields);
    }

    method ValidateChksum() returns (valid: bool)
      requires Valid()
      ensures valid <==> Sealed()
    {
      var computed := ComputeChksum();
      valid := computed == checksum;
    }

    method UpdateChksum()
      requires Valid()
      modifies this`checksum
      ensures Valid() && Sealed()
    {
      checksum := ComputeChksum();
    }
  }

  /** After an update the superblock validates, and a change of the fields inside any window of 32 bits makes
      it fail. */
  method UpdateThenChange(sb: Ext4Superblock, changed: seq<bv8>, ghost i: nat, ghost n: nat)
    returns (before: bool, after: bool)
    requires sb.Valid() && n <= 32 && SameOutside(Bits(changed), Bits(sb.fields), i, n)
    modifies sb
    ensures before && (after <==> changed == old(sb.fields))
  {
    sb.UpdateChksum();
    before := sb.ValidateChksum();
    if changed != sb.fields { BurstDetected(CRC32C_POLY, changed, sb.fields, i, n); }
    assert |Bits(changed)| == 8 * |changed| && |Bits(sb.fields)| == 8 * |sb.fields|;
    sb.fields := changed;
    after := sb.ValidateChksum();
  }
}
