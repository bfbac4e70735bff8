/** The constants of the DBN format and the values that stand for nothing. */
module Constants {
  import opened Bytes

  const DBN_VERSION: byte := 3
  const DBN_PREFIX: bytes := [68, 66, 78]
  const MAGIC_SIZE: nat := 4
  const METADATA_PRELUDE_SIZE: nat := 8
  const ZSTD_MAGIC_NUMBER: nat := 0xFD2FB528
  const FIXED_METADATA_LEN: nat := 100
  const DATASET_CSTR_LEN: nat := 16
  const METADATA_RESERVED_LEN: nat := 53
  const METADATA_RESERVED_LEN_V1: nat := 47
  const SYMBOL_CSTR_LEN: nat := 71
  const SYMBOL_CSTR_LEN_V1: nat := 22
  /** The longest record of the current version, with a send timestamp behind it. */
  const MAX_RECORD_LEN: nat := 520 + 8
  const RECORD_HEADER_SIZE: nat := 16

  const NULL_SCHEMA: u16 := 0xFFFF
  const NULL_STYPE: byte := 0xFF
  const NULL_RECORD_COUNT: u64 := 0xFFFF_FFFF_FFFF_FFFF
  const UNDEF_PRICE: int := 0x7FFF_FFFF_FFFF_FFFF
  const UNDEF_STAT_QUANTITY: int := 0x7FFF_FFFF_FFFF_FFFF
  const UNDEF_STAT_QUANTITY_V1: int := 0x7FFF_FFFF
}
